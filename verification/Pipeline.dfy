/** Requests that a client sends one behind the other without waiting, section 9.3.2 of RFC 9112: from their text to
    what the client reads, through the framing, the parser, the file system and the connection. */
module Pipeline {
  import opened Prelude
  import opened Text
  import opened HttpParser
  import opened HttpPrinter
  import opened Framing
  import opened Responses
  import opened Messages
  import opened Responder
  import opened Conversation
  import Paths
  import Ranges
  import Site

  // --- one request ---------------------------------------------------------------------------------------------

  /** A request as a client writes it, short enough for the server's buffer. */
  ghost predicate Fits(c: Canonical) {
    c.Valid() && |c.Print()| <= 8192
  }

  function ConnectionOf(c: Canonical): (r: string) {
    match LastField(c.fields, "Connection")
    case None => ""
    case Some(v) => CopyBounded(v, CONNECTION_TEXT_MAX)
  }

  /** What the server makes of it. */
  function Understood(c: Canonical): (r: Request) {
    Request(VerbOf(c.verb), c.path, c.version, Persists(c.version, ConnectionOf(c)),
            Ranges.ApplyAll(Ranges.NO_RANGE, RangesIn(c.fields)))
  }

  lemma EndOfBlock(line: string, lines: seq<string>, tail: string)
    requires IsPlainLine(line) && forall i :: 0 <= i < |lines| ==> IsPlainLine(lines[i])
    ensures FirstBlankLine(line + CRLF + (JoinLines(lines) + CRLF + tail)) == |line| + |JoinLines(lines)|
  {
    var rest := JoinLines(lines) + CRLF + tail;
    BlankLineBeyond(line, rest);
    if lines == [] {
      assert rest == CRLF + tail;
    } else {
      BlankLineAfterLines(lines, tail);
      assert rest[0] == lines[0][0];
    }
  }

  lemma BlockOfCanonical(c: Canonical, rest: string)
    requires Fits(c)
    ensures BlockLength(c.Print() + rest) == |c.Print()|
  {
    LineOfCanonical(c);
    FieldLinesArePlain(c.fields);
    var line, lines := c.Line(), FieldLines(c.fields);
    EndOfBlock(line, lines, rest);
    Assoc(line + CRLF, JoinLines(lines) + CRLF, rest);
  }

  /** A printed request with anything behind it is the next request, and what is behind it is the rest. */
  lemma NextIsCanonical(c: Canonical, rest: string, reset: bool)
    requires Fits(c)
    ensures var next := NextRequest(c.Print() + rest, reset);
            next.Accepted? && next.request == Understood(c) && next.rest == rest
  {
    CanonicalRoundTrip(c);
    BlockOfCanonical(c, rest);
    Cut(c.Print(), rest);
  }

  // --- many requests -------------------------------------------------------------------------------------------

  ghost predicate AreValid(cs: seq<Canonical>) {
    forall c :: c in cs ==> c.Valid()
  }

  ghost function PrintAll(cs: seq<Canonical>): (r: string)
    requires AreValid(cs)
  {
    if cs == [] then ""
    else
      assert cs[0] in cs;
      cs[0].Print() + PrintAll(cs[1..])
  }

  /** That requests fit, persist, and are answered completely. */
  ghost predicate AreServed(cs: seq<Canonical>, answer: Answer) {
    forall c :: c in cs ==> Fits(c) && Understood(c).keepAlive && answer(Understood(c)).complete
  }

  function AnswersTo(cs: seq<Canonical>, answer: Answer): (r: seq<Response>) {
    if cs == [] then [] else [answer(Understood(cs[0]))] + AnswersTo(cs[1..], answer)
  }

  lemma OneIsServed(c: Canonical, rest: string, reset: bool, answer: Answer)
    requires c.Valid() && AreServed([c], answer)
    ensures Serve(c.Print() + rest, reset, answer).responses
         == [answer(Understood(c))] + Serve(rest, reset, answer).responses
  {
    assert c in [c];
    NextIsCanonical(c, rest, reset);
    GoingOn(c.Print() + rest, reset, answer);
  }

  /** Requests that persist, however many are sent at once, are answered each once and in order, and then what follows
      them is. */
  lemma {:induction false} PipelineIsServed(cs: seq<Canonical>, tail: string, reset: bool, answer: Answer)
    requires AreValid(cs) && AreServed(cs, answer)
    ensures Serve(PrintAll(cs) + tail, reset, answer).responses
         == AnswersTo(cs, answer) + Serve(tail, reset, answer).responses
    decreases |cs|
  {
    if cs == [] {
      assert PrintAll(cs) + tail == tail;
    } else {
      assert cs[0] in cs;
      var c, others, rest := cs[0], PrintAll(cs[1..]), PrintAll(cs[1..]) + tail;
      Assoc(c.Print(), others, tail);
      OneIsServed(c, rest, reset, answer);
      PipelineIsServed(cs[1..], tail, reset, answer);
      Assoc([answer(Understood(c))], AnswersTo(cs[1..], answer), Serve(tail, reset, answer).responses);
    }
  }

  lemma PipelineAlone(cs: seq<Canonical>, answer: Answer)
    requires AreValid(cs) && AreServed(cs, answer)
    ensures Serve(PrintAll(cs), false, answer).responses == AnswersTo(cs, answer)
  {
    var text := PrintAll(cs);
    PipelineIsServed(cs, "", false, answer);
    assert text + "" == text;
    EndOfInputIff("", false);
  }

  // --- documents -----------------------------------------------------------------------------------------------

  /** That a request path leads to a file with this content. */
  predicate IsAt(disk: Site.Disk, path: string, content: string) {
    match Paths.Resolve(disk.root, path, disk.realpath, 4096)
    case Rejected(_) => false
    case Resolved(found) =>
      var file := disk.node(found);
      file.Document? && file.content == Some(content) && file.size == |content|
  }

  /** A persistent GET without a Range field for a file with this content. */
  ghost predicate Gets(c: Canonical, disk: Site.Disk, content: string) {
    && Fits(c) && c.verb == "GET" && FieldValues(c.fields, "Range") == [] && Understood(c).keepAlive
    && IsAt(disk, c.path, content)
  }

  lemma {:induction false} NoRangesIn(fs: seq<Field>)
    requires FieldValues(fs, "Range") == []
    ensures RangesIn(fs) == []
    decreases |fs|
  {
    if fs != [] {
      NoRangesIn(fs[..|fs| - 1]);
    }
  }

  lemma FileIsSent(req: Request, disk: Site.Disk, content: string, r: Response)
    requires req.verb == Get && !req.range.has && IsAt(disk, req.path, content)
    requires r == Respond(req, Site.Find(disk, req.path))
    ensures r.Valid() && r.complete && r.head.status == 200 && r.body == content && r.head.length == |content|
  {
    RespondIsValid(req, Site.Find(disk, req.path));
    var found := Paths.Resolve(disk.root, req.path, disk.realpath, 4096).path;
    var file := disk.node(found);
    Site.WholeDocument(req, file.size, file.mime, content, file.seekable);
  }

  lemma FileIsGot(c: Canonical, disk: Site.Disk, content: string, answer: Answer)
    requires Gets(c, disk, content) && answer == AnswerFrom(Site.FilesOn(disk))
    ensures AreServed([c], answer)
    ensures var r := answer(Understood(c));
            r.Valid() && r.head.status == 200 && r.body == content && r.head.length == |content|
  {
    NoRangesIn(c.fields);
    FileIsSent(Understood(c), disk, content, answer(Understood(c)));
  }

  function Documents(contents: seq<string>): (r: seq<Message>) {
    if contents == [] then [] else [Message(200, contents[0])] + Documents(contents[1..])
  }

  ghost predicate AllGet(cs: seq<Canonical>, disk: Site.Disk, contents: seq<string>) {
    |contents| == |cs| && forall i :: 0 <= i < |cs| ==> Gets(cs[i], disk, contents[i])
  }

  /** No request was sent as HEAD. */
  function NoHead(n: nat): (r: seq<bool>) {
    if n == 0 then [] else [false] + NoHead(n - 1)
  }

  lemma {:induction false} AnswersRead(cs: seq<Canonical>, contents: seq<string>, disk: Site.Disk, answer: Answer)
    requires AllGet(cs, disk, contents) && answer == AnswerFrom(Site.FilesOn(disk))
    ensures AreValid(cs) && AreServed(cs, answer)
    ensures ReadAll(Wires(AnswersTo(cs, answer)), NoHead(|cs|)) == Some(Documents(contents))
    decreases |cs|
  {
    if cs != [] {
      var r := answer(Understood(cs[0]));
      FileIsGot(cs[0], disk, contents[0], answer);
      assert cs == [cs[0]] + cs[1..];
      AnswersRead(cs[1..], contents[1..], disk, answer);
      var others := AnswersTo(cs[1..], answer);
      Cut([r], others);
      OneMessageIff(r, false, Wires(others));
      Cut([false], NoHead(|cs| - 1));
      ReadOneMore(r.Wire() + Wires(others), NoHead(|cs|), Message(200, contents[0]), Wires(others),
                  Documents(contents[1..]));
    }
  }

  /** From the text of the requests to what the client reads: the files it asked for, all of them and in the order in
      which it asked, and nothing else. */
  lemma ClientGetsItsFiles(cs: seq<Canonical>, contents: seq<string>, disk: Site.Disk)
    requires AreValid(cs) && AllGet(cs, disk, contents)
    ensures var t := Serve(PrintAll(cs), false, AnswerFrom(Site.FilesOn(disk)));
            ReadAll(Wires(t.responses), NoHead(|cs|)) == Some(Documents(contents))
  {
    AnswersRead(cs, contents, disk, AnswerFrom(Site.FilesOn(disk)));
    PipelineAlone(cs, AnswerFrom(Site.FilesOn(disk)));
  }
}
