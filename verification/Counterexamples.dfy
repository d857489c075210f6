/** Inputs for which the code does not do what it should. The conditions that shut out all of them are in
    modules Ranges, Responder, Conversation and Navigation. */
module Counterexamples {
  import opened Prelude
  import opened Text
  import opened Numerals
  import opened Ranges
  import opened HttpParser
  import opened HttpPrinter
  import opened Framing
  import opened Responses
  import opened Messages
  import opened Persistence
  import opened Responder
  import opened Conversation
  import L = Listing
  import N = Navigation
  import P = Paths
  import UrlCodec

  // --- range requests ------------------------------------------------------------------------------------------

  function RangeLine(value: string): (r: string) {
    FieldLine(Field("Range", value))
  }

  lemma RangeLineIs(value: string)
    requires '\r' !in value && TrimEnd(SkipBlanks(value)) == value
    ensures IsField(RangeLine(value), "Range") && FieldOf(RangeLine(value)).value.value == value
  {
    FieldOfLine(Field("Range", value));
  }

  lemma OneLine(value: string)
    requires '\r' !in value && TrimEnd(SkipBlanks(value)) == value
    ensures ValuesOf([RangeLine(value)], "Range") == [value]
  {
    RangeLineIs(value);
    var lines := [RangeLine(value)];
    assert lines[..0] == [] && lines[0] == RangeLine(value);
  }

  lemma TwoLines(a: string, b: string)
    requires '\r' !in a && TrimEnd(SkipBlanks(a)) == a && '\r' !in b && TrimEnd(SkipBlanks(b)) == b
    ensures RangeSpecs([RangeLine(a), RangeLine(b)]) == [ParseRange(a), ParseRange(b)]
  {
    RangeLineIs(a);
    RangeLineIs(b);
    var lines := [RangeLine(a), RangeLine(b)];
    assert lines[..1] == [RangeLine(a)] && [RangeLine(a)][..0] == [];
    assert RangeSpecs([RangeLine(a)]) == [] + [ParseRange(a)] == [ParseRange(a)];
  }

  /** "bytes=" followed by a range. */
  lemma BytesValue(r: string, asked: Asked)
    requires IsRange(r, asked) && '\r' !in r
    ensures var v := UNIT + r; Requests(v, asked) && ',' !in v && '\r' !in v && TrimEnd(SkipBlanks(v)) == v
  {
    var v := UNIT + r;
    RangeEnds(r, asked);
    assert v == "" + (UNIT + ("" + r + "")) + "";
    assert IsRangeValue(v, "", UNIT, "", r, "", "", asked);
    assert v[|v| - 1] == r[|r| - 1];
    TokenIsCanonical(v);
  }

  lemma SmallNumerals()
    ensures IsNumeral("0", 0) && IsNumeral("3", 3) && IsNumeral("5", 5) && IsNumeral("7", 7)
  {
    assert "0"[..0] == "3"[..0] == "5"[..0] == "7"[..0] == "";
    assert Value("") == 0;
  }

  lemma SuffixOfFive()
    ensures ParseRange("bytes=-5") == Suffix(5)
    ensures '\r' !in "bytes=-5" && TrimEnd(SkipBlanks("bytes=-5")) == "bytes=-5"
  {
    SmallNumerals();
    assert "-5" == "-" + "5";
    assert "bytes=-5" == UNIT + "-5";
    BytesValue("-5", LastBytes(5));
    RequestedIsRead("bytes=-5", LastBytes(5));
  }

  lemma FirstToSeven(t: string, a: nat)
    requires IsNumeral(t, a) && a <= 3 && '\r' !in t
    ensures var v := UNIT + (t + "-7");
            ParseRange(v) == FromTo(a, 7) && '\r' !in v && TrimEnd(SkipBlanks(v)) == v
  {
    SmallNumerals();
    assert t + "-7" == t + "-" + "7";
    BytesValue(t + "-7", Between(a, 7));
    RequestedIsRead(UNIT + (t + "-7"), Between(a, 7));
  }

  lemma TwoRangeLines(lines: seq<string>, t: string, n: nat)
    requires lines == [RangeLine("bytes=-5"), RangeLine(UNIT + (t + "-7"))] && IsNumeral(t, n) && n <= 3 && '\r' !in t
    ensures ApplyLines(NO_HEADERS, lines).range == RangeFields(true, true, true, n, 7)
  {
    SuffixOfFive();
    FirstToSeven(t, n);
    TwoLines("bytes=-5", UNIT + (t + "-7"));
    HeadersMean(lines);
    SuffixThenBounded(n);
  }

  lemma SuffixThenBounded(n: Size)
    ensures ApplyAll(NO_RANGE, [Suffix(5), FromTo(n, 7)]) == RangeFields(true, true, true, n, 7)
  {
    assert [Suffix(5), FromTo(n, 7)][..1] == [Suffix(5)] && [Suffix(5)][..0] == [];
  }

  const STALE_LINES: seq<string> := ["Range: bytes=-5", "Range: bytes=3-7"]
  const WRAPPING_LINES: seq<string> := ["Range: bytes=-5", "Range: bytes=0-7"]

  lemma LinesAreLines()
    ensures STALE_LINES == [RangeLine("bytes=-5"), RangeLine(UNIT + ("3" + "-7"))]
    ensures WRAPPING_LINES == [RangeLine("bytes=-5"), RangeLine(UNIT + ("0" + "-7"))]
  {
    assert "Range: bytes=-5" == RangeLine("bytes=-5");
    assert "Range: bytes=3-7" == RangeLine(UNIT + ("3" + "-7"));
    assert "Range: bytes=0-7" == RangeLine(UNIT + ("0" + "-7"));
  }

  lemma WrapsToZero(f: RangeFields, size: Size)
    requires f == RangeFields(true, true, true, 0, 7) && size > 0
    ensures ResolveRange(f, size) == Some(ByteRange(size, size - 1, 0, true))
  {
  }

  /** After "Range: bytes=-5", the line "Range: bytes=3-7" asks for the last three bytes. */
  lemma StaleSuffixExample()
    ensures Meaning(ApplyLines(NO_HEADERS, STALE_LINES).range) == Suffix(3)
  {
    SmallNumerals();
    LinesAreLines();
    TwoRangeLines(STALE_LINES, "3", 3);
  }

  /** After "Range: bytes=-5", the line "Range: bytes=0-7" makes the length of the range wrap to zero. */
  lemma ZeroSuffixExample(size: Size)
    requires size > 0
    ensures ResolveRange(ApplyLines(NO_HEADERS, WRAPPING_LINES).range, size) == Some(ByteRange(size, size - 1, 0, true))
  {
    SmallNumerals();
    LinesAreLines();
    TwoRangeLines(WRAPPING_LINES, "0", 0);
    WrapsToZero(ApplyLines(NO_HEADERS, WRAPPING_LINES).range, size);
  }

  /** A range the server does not take is answered with the whole file. */
  lemma NotTaken(v: string, asked: Asked, req: Request, size: Size, mime: Mime, content: string)
    requires Requests(v, asked) && !IsTaken(v, asked) && !IsEmptySuffix(asked, size)
    requires '\r' !in v && TrimEnd(SkipBlanks(v)) == v
    requires req.verb == Get && |content| == size && req.range == ApplyLines(NO_HEADERS, [RangeLine(v)]).range
    ensures var answer := Respond(req, Regular(size, mime, Some(content), true));
            !Transfers(answer, asked, content) && IsWhole(answer, content)
  {
    OneLine(v);
    OneRangeLineEndToEnd([RangeLine(v)], v, req, size, mime, content);
    forall other | Requests(v, other)
      ensures !IsTaken(v, other)
    {
      RequestedIsRead(v, asked);
      RequestedIsRead(v, other);
    }
  }

  lemma NotUnderstood(r: string, asked: Asked, req: Request, size: Size, mime: Mime, content: string)
    requires IsRange(r, asked) && '\r' !in r && !IsUnderstood(asked) && !IsEmptySuffix(asked, size)
    requires req.verb == Get && |content| == size && req.range == ApplyLines(NO_HEADERS, [RangeLine(UNIT + r)]).range
    ensures var answer := Respond(req, Regular(size, mime, Some(content), true));
            Requests(UNIT + r, asked) && !Transfers(answer, asked, content) && IsWhole(answer, content)
  {
    BytesValue(r, asked);
    NotTaken(UNIT + r, asked, req, size, mime, content);
  }

  lemma OneSpec(v: string, spec: RangeSpec)
    requires ParseRange(v) == spec && '\r' !in v && TrimEnd(SkipBlanks(v)) == v
    ensures ApplyLines(NO_HEADERS, [RangeLine(v)]).range == Apply(NO_RANGE, spec)
  {
    OneLine(v);
    HeadersMean([RangeLine(v)]);
    RangeSpecsOfValues([RangeLine(v)]);
    assert RangeSpecs([RangeLine(v)]) == [spec];
    assert [spec][..0] == [];
  }

  lemma EmptyFileIsRefused(req: Request, mime: Mime)
    requires req.verb == Get && req.range.has
    ensures Respond(req, Regular(0, mime, Some(""), true)).head.status == 416
  {
  }

  /** "Range: bytes=-5" asks for the whole of an empty file, and is refused with 416. */
  lemma EmptyFileExample(req: Request, mime: Mime)
    requires req.verb == Get && req.range == ApplyLines(NO_HEADERS, [RangeLine("bytes=-5")]).range
    ensures var answer := Respond(req, Regular(0, mime, Some(""), true));
            && Requests("bytes=-5", LastBytes(5)) && IsSatisfiable(LastBytes(5), 0)
            && answer.head.status == 416 && !Transfers(answer, LastBytes(5), "")
  {
    SuffixOfFive();
    OneSpec("bytes=-5", Suffix(5));
    ReadIsRequested("bytes=-5");
    EmptyFileIsRefused(req, mime);
  }

  /** "Range: bytes=0-4," is a list of one range, and gets the whole file. */
  lemma EmptyElementExample(req: Request, size: Size, mime: Mime, content: string)
    requires req.verb == Get && |content| == size
    requires req.range == ApplyLines(NO_HEADERS, [RangeLine("bytes=0-4,")]).range
    ensures var answer := Respond(req, Regular(size, mime, Some(content), true));
            && Requests("bytes=0-4,", Between(0, 4))
            && !Transfers(answer, Between(0, 4), content) && IsWhole(answer, content)
  {
    ZeroToFour();
    CommaValue();
    NotTaken("bytes=0-4,", Between(0, 4), req, size, mime, content);
  }

  lemma CommaValue()
    ensures var v := "bytes=0-4,"; ',' in v && '\r' !in v && TrimEnd(SkipBlanks(v)) == v
  {
    var v := "bytes=0-4,";
    TokenIsCanonical(v);
    assert v[|v| - 1] == ',';
  }

  lemma ZeroToFour()
    ensures Requests("bytes=0-4,", Between(0, 4))
  {
    var r := "0-4";
    assert "4"[..0] == "" && "0"[..0] == "" && Value("") == 0;
    assert IsNumeral("0", 0) && IsNumeral("4", 4) && r == "0" + "-" + "4";
    assert "bytes=0-4," == "" + (UNIT + ("" + r + ",")) + "";
    assert IsRangeValue("bytes=0-4,", "", UNIT, "", r, ",", "", Between(0, 4));
  }

  /** "Range: bytes=-0" asks for nothing and should be refused with 416. */
  lemma NoBytesExample(req: Request, size: Size, mime: Mime, content: string)
    requires req.verb == Get && |content| == size && req.range == ApplyLines(NO_HEADERS, [RangeLine(UNIT + "-0")]).range
    ensures var answer := Respond(req, Regular(size, mime, Some(content), true));
            Requests(UNIT + "-0", LastBytes(0)) && !Transfers(answer, LastBytes(0), content) && IsWhole(answer, content)
  {
    SmallNumerals();
    assert "-0" == "-" + "0";
    NotUnderstood("-0", LastBytes(0), req, size, mime, content);
  }

  /** So do the bytes from SIZE_MAX + 1 on. */
  lemma BeyondEveryFileExample(req: Request, size: Size, mime: Mime, content: string)
    requires req.verb == Get && |content| == size
    requires req.range == ApplyLines(NO_HEADERS, [RangeLine(UNIT + (PrintSize(SIZE_MAX + 1) + "-"))]).range
    ensures var answer := Respond(req, Regular(size, mime, Some(content), true));
            !Transfers(answer, Onwards(SIZE_MAX + 1), content) && IsWhole(answer, content)
  {
    var t := PrintSize(SIZE_MAX + 1);
    PrintedValue(SIZE_MAX + 1);
    NumeralIsCanonical(SIZE_MAX + 1);
    assert IsNumeral(t, SIZE_MAX + 1);
    NotUnderstood(t + "-", Onwards(SIZE_MAX + 1), req, size, mime, content);
  }

  /** The bytes from 0 to SIZE_MAX + 1 are all bytes, but as a range, with 206. */
  lemma ToBeyondEveryFileExample(req: Request, size: Size, mime: Mime, content: string)
    requires req.verb == Get && |content| == size
    requires req.range == ApplyLines(NO_HEADERS, [RangeLine(UNIT + ("0-" + PrintSize(SIZE_MAX + 1)))]).range
    ensures var answer := Respond(req, Regular(size, mime, Some(content), true));
            !Transfers(answer, Between(0, SIZE_MAX + 1), content) && IsWhole(answer, content)
  {
    var t := PrintSize(SIZE_MAX + 1);
    SmallNumerals();
    PrintedValue(SIZE_MAX + 1);
    NumeralIsCanonical(SIZE_MAX + 1);
    assert IsNumeral(t, SIZE_MAX + 1);
    assert "0-" + t == "0" + "-" + t;
    NotUnderstood("0-" + t, Between(0, SIZE_MAX + 1), req, size, mime, content);
  }

  // --- reading the output ----------------------------------------------------------------------------------------

  lemma BlockIsNext(block: string, rest: string)
    requires FirstBlankLine(block) + 4 == |block| <= READ_BUFFER_SIZE
    ensures NextRequest(block + rest, false) == Judge(ParseRequest(block), LogLine(block + rest), rest)
  {
    Cut(block, rest);
    BlankLineInPrefix(block, block + rest);
  }

  lemma OnlyRefused(stream: string, answer: Answer)
    requires NextRequest(stream, false).Rejected?
    ensures Serve(stream, false, answer).responses == [BadRequest()] && Inputs(stream, false, answer) == [stream]
  {
  }

  lemma BadRequestToHead()
    ensures ReadAll(Wires([BadRequest()]), [true]) != Some(MessagesOf([BadRequest()]))
  {
    assert BadRequest().head.Valid();
    OutputFramesItselfIff([BadRequest()], [true]);
  }

  lemma RefusedBlock(block: string)
    requires FirstBlankLine(block) + 4 == |block| <= READ_BUFFER_SIZE && ParseRequest(block) == None
    ensures NextRequest(block, false).Rejected?
  {
    BlockIsNext(block, "");
    assert block + "" == block;
  }

  /** Whatever a client wrote as a HEAD request, if it is refused, the answer is not what the client expects. */
  lemma RefusalOfHead(stream: string, answer: Answer)
    requires NextRequest(stream, false).Rejected? && MethodWord(stream) == "HEAD"
    ensures var rs, ins := Serve(stream, false, answer).responses, Inputs(stream, false, answer);
            && rs == [BadRequest()] && SentHead(ins) == [true]
            && ReadAll(Wires(rs), SentHead(ins)) != Some(MessagesOf(rs))
  {
    OnlyRefused(stream, answer);
    BadRequestToHead();
    assert SentHead([stream]) == [true];
  }

  lemma NoSuchVersion(line: string, p: Parts)
    requires line == p.verb + " " + p.target + " " + p.version && ' ' !in p.verb && ' ' !in p.target
    requires VersionOf(CString(p.version)) == Unknown
    ensures ParseLine(line) == None && line[..IndexOf(line, ' ')] == p.verb
  {
    SplitUnique(p);
    VersionCopy(p.version);
  }

  const REFUSED_LINE: string := "HEAD" + " " + "/" + " " + "HTTP/2.0"
  const REFUSED_HEAD: string := REFUSED_LINE + CRLF + CRLF

  lemma VersionTwo(v: string)
    requires v == "HTTP/2.0"
    ensures VersionOf(CString(v)) == Unknown
  {
    assert v[5] == '2';
    assert CString(v) <= v;
  }

  lemma RefusedLineIs()
    ensures ParseLine(REFUSED_LINE) == None && REFUSED_LINE[..IndexOf(REFUSED_LINE, ' ')] == "HEAD"
  {
    VersionTwo("HTTP/2.0");
    NoSuchVersion(REFUSED_LINE, Parts("HEAD", "/", "HTTP/2.0"));
  }

  lemma RefusedLineIsPlain()
    ensures '\r' !in REFUSED_LINE
  {
  }

  lemma LineAlone(line: string)
    requires '\r' !in line
    ensures var block := line + CRLF + CRLF;
            FirstBlankLine(block) == FirstCrlf(block) == |line| && block[..|line|] == line
  {
    NoCrNoCrlf(line);
    LineEnd(line, CRLF);
    BlankLineBeyond(line, CRLF);
    CutLine(line, CRLF);
  }

  /** A HEAD request for another version is refused with a 400 and a body, which the client does not expect. */
  lemma RefusedHeadExample(files: Files)
    ensures var rs, ins := Serve(REFUSED_HEAD, false, AnswerFrom(files)).responses, Inputs(REFUSED_HEAD, false,
            AnswerFrom(files));
            && rs == [BadRequest()] && SentHead(ins) == [true]
            && ReadAll(Wires(rs), SentHead(ins)) != Some(MessagesOf(rs))
  {
    RefusedLineIs();
    RefusedLineIsPlain();
    LineAlone(REFUSED_LINE);
    RefusedBlock(REFUSED_HEAD);
    RefusalOfHead(REFUSED_HEAD, AnswerFrom(files));
  }

  // --- the end of the connection -----------------------------------------------------------------------------------

  const ROOT_REQUEST := Canonical("GET", "/", None, Http11, [])
  const ROOT_BLOCK: string := "GET / HTTP/1.1\r\n\r\n"

  /** Two requests for a directory that cannot be listed. */
  const TWO_REQUESTS: string := ROOT_BLOCK + ROOT_BLOCK

  lemma RootBlockParses()
    ensures ParseRequest(ROOT_BLOCK) == Some(Request(Get, "/", Http11, true, NO_RANGE))
  {
    assert ROOT_REQUEST.Print() == ROOT_BLOCK by {
      assert ROOT_REQUEST.Target() == "/";
    }
    CanonicalRoundTrip(ROOT_REQUEST);
    assert Persists(Http11, "");
  }

  lemma AcceptedIsNext(block: string, req: Request, rest: string)
    requires FirstBlankLine(block) + 4 == |block| <= READ_BUFFER_SIZE && ParseRequest(block) == Some(req)
    ensures var next := NextRequest(block + rest, false); next.Accepted? && next.request == req && next.rest == rest
  {
    BlockIsNext(block, rest);
  }

  lemma RootBlockIsBlock()
    ensures FirstBlankLine(ROOT_BLOCK) + 4 == |ROOT_BLOCK|
  {
    FirstBlankLineIs(ROOT_BLOCK, 14);
  }

  lemma RootBlockIsNext(rest: string)
    ensures var next := NextRequest(ROOT_BLOCK + rest, false);
            next.Accepted? && next.request == Request(Get, "/", Http11, true, NO_RANGE) && next.rest == rest
  {
    RootBlockParses();
    RootBlockIsBlock();
    AcceptedIsNext(ROOT_BLOCK, Request(Get, "/", Http11, true, NO_RANGE), rest);
  }

  lemma SameAnswerTwice(stream: string, rest: string, req: Request, answer: Answer)
    requires NextRequest(stream, false).Accepted? && NextRequest(rest, false).Accepted?
    requires NextRequest(stream, false).request == NextRequest(rest, false).request == req
    requires NextRequest(stream, false).rest == rest && NextRequest(rest, false).rest == ""
    requires req.keepAlive && answer(req).complete
    ensures Serve(stream, false, answer).responses == [answer(req), answer(req)]
  {
    GoingOn(stream, false, answer);
    GoingOn(rest, false, answer);
    NothingArrives(answer);
  }

  lemma NothingArrives(answer: Answer)
    ensures Serve("", false, answer).responses == []
  {
  }

  /** The answer to the first request announces that the connection is closed, and then comes a second answer. */
  lemma AnnouncedButOpenExample(files: Files)
    requires files("/") == Directory(None)
    ensures var rs := Serve(TWO_REQUESTS, false, AnswerFrom(files)).responses;
            |rs| == 2 && AnnouncesClose(rs[0].Wire())
  {
    var req := Request(Get, "/", Http11, true, NO_RANGE);
    RootBlockIsNext(ROOT_BLOCK);
    RootBlockIsNext("");
    assert ROOT_BLOCK + "" == ROOT_BLOCK;
    AnnouncesIff(req, files("/"));
    SameAnswerTwice(TWO_REQUESTS, ROOT_BLOCK, req, AnswerFrom(files));
  }

  /** A file that is shorter than `stat` said: the client waits for bytes that do not come. */
  lemma ShortFileExample(files: Files, size: Size, mime: Mime, content: string)
    requires files("/") == Regular(size, mime, Some(content), true) && |content| < size
    ensures var rs := Serve(ROOT_BLOCK, false, AnswerFrom(files)).responses;
            var ins := Inputs(ROOT_BLOCK, false, AnswerFrom(files));
            ReadAll(Wires(rs), SentHead(ins)) != Some(MessagesOf(rs))
  {
    RootBlockIsNext("");
    assert ROOT_BLOCK + "" == ROOT_BLOCK;
    InputsStart(ROOT_BLOCK, false, AnswerFrom(files));
    ClientReadsBackIff(ROOT_BLOCK, false, files);
    WholeFileIsShort(Request(Get, "/", Http11, true, NO_RANGE), files("/"));
  }

  lemma WholeFileIsShort(req: Request, res: Resource)
    requires req.verb == Get && req.range == NO_RANGE
    requires res.Regular? && res.content.Some? && |res.content.value| < res.size
    ensures IsShort(req, res)
  {
  }

  // --- persistence -------------------------------------------------------------------------------------------------

  lemma TwoOptions(value: string, option: string)
    requires value == option + ", TE" && ',' !in option && '\r' !in option
    requires option != "" && Trimmed(option) == option && !IsBlank(option[0])
    ensures var lines := [FieldLine(Field("Connection", value))];
            && ValuesOf(lines, "Connection") == [value]
            && HasOption(lines, option) && !LastIs(lines, option)
  {
    var lines := [FieldLine(Field("Connection", value))];
    TokenIsCanonical(value);
    FieldOfLine(Field("Connection", value));
    assert lines[..0] == [] && lines[0] == FieldLine(Field("Connection", value));
    assert ValuesOf(lines, "Connection") == [value];
    assert value[..|option|] == option && value[|option|] == ',';
    P.IndexIs(value, ',', |option|);
    assert value in ValuesOf(lines, "Connection");
    LastOfValues(lines);
  }

  /** "Connection: close, TE" should end a connection and does not. */
  lemma CloseInListExample(f: LineFields)
    requires f.version == Http11
    ensures var lines := [FieldLine(Field("Connection", "close, TE"))];
            Complete(f, ApplyLines(NO_HEADERS, lines)).keepAlive && !ShouldPersist(f.version, lines)
  {
    TrimmedIs("close");
    TwoOptions("close, TE", "close");
    PersistsAsRead(f.version, [FieldLine(Field("Connection", "close, TE"))]);
  }

  lemma TrimmedIs(option: string)
    requires option == "close" || option == "keep-alive"
    ensures Trimmed(option) == option && ',' !in option && '\r' !in option && !IsBlank(option[0])
  {
    TrimmedCore("", option, "");
    assert "" + option + "" == option;
  }

  // --- the document root -------------------------------------------------------------------------------------------

  /** A file system in which everything exists and nothing is a link. */
  function Everything(path: string): (r: P.RealPath) {
    if path == "" then P.Absent else P.Real(P.Render(P.Lexical([], path)))
  }

  /** Below the root "/" no file is served. */
  lemma RootSlashExample()
    ensures P.LinkFree(Everything, [])
    ensures P.Resolve("/", "/a", Everything, FILE_PATH_MAX) == P.Rejected(UrlCodec.NotAllowed)
  {
    DecodesToItself("/a", FILE_PATH_MAX - 1);
    assert "/a" == "/" + "a";
    OneNameSegments("a");
    RootIsEmpty();
    P.LastCheckRejectsIff([], "/", "/a", Everything, FILE_PATH_MAX);
  }

  lemma RootIsEmpty()
    ensures P.Lexical([], "/") == []
  {
    assert "/" == "" + "/" + "";
    P.FirstSegment("", "");
    N.OneSegment("");
    assert [""] + [""] == ["", ""] && ["", ""][1..] == [""] && [""][1..] == [];
    assert P.Walk([], ["", ""]) == P.Walk([], [""]) == P.Walk([], []);
  }

  // --- links -----------------------------------------------------------------------------------------------------

  lemma {:induction false} DecodesToItself(s: string, room: nat)
    requires |s| <= room && forall i :: 0 <= i < |s| ==> UrlCodec.IsUnreserved(s[i]) || s[i] == '/'
    ensures UrlCodec.Decode(s, room) == UrlCodec.Done(s)
  {
    if s != "" {
      DecodesToItself(s[1..], room - 1);
      assert UrlCodec.DecodeOne(s) == Some((s[0], s[1..]));
      assert s == [s[0]] + s[1..];
    }
  }

  lemma OneNameSegments(name: string)
    requires P.IsComponent(name)
    ensures P.Plain(P.Segments("/" + name)) == [name] && !P.HasDotDot("/" + name) && P.Relative("/" + name) == name
  {
    assert "/" + name == "" + "/" + name;
    P.FirstSegment("", name);
    N.OneSegment(name);
    assert [""] + [name] == ["", name];
    assert ["", name][1..] == [name] && [name][1..] == [];
    assert P.Plain(["", name]) == P.Plain([name]) == [name] + P.Plain([]);
    assert ("/" + name)[1..] == name;
  }

  lemma OneNameLeads(cwd: seq<string>, root: string, name: string)
    requires root != "" && |root| + |name| < 4000 && P.IsComponent(name)
    requires forall i :: 0 <= i < |name| ==> UrlCodec.IsUnreserved(name[i])
    ensures N.Leads(cwd, root, "/" + name) == Some(P.Lexical(cwd, root) + [name])
  {
    DecodesToItself("/" + name, FILE_PATH_MAX - 1);
    OneNameSegments(name);
    N.LeadsMeans(cwd, root, "/" + name, "/" + name);
  }

  lemma MergesAway(name: string, link: string)
    requires '/' !in name
    ensures N.BaseLength("/" + name) == 1 && N.Merge("/" + name, link) == "/" + link
  {
    var path := "/" + name;
    assert path[0] == '/' && forall i :: 1 <= i < |path| ==> path[i] == name[i - 1];
  }

  /** The directory requested as "/docs" is listed, and the link to its file "a" leads to "/a". */
  lemma NoSlashExample(cwd: seq<string>, root: string)
    requires root != "" && |root| < 3900
    ensures var e := L.Entry("a", false);
            && N.Merge("/docs", N.LinkOf(e)) == "/a"
            && N.Leads(cwd, root, "/docs") == Some(P.Lexical(cwd, root) + ["docs"])
            && N.Leads(cwd, root, "/a") == Some(P.Lexical(cwd, root) + ["a"])
            && !N.LinkWorks(root, "/docs", e)
  {
    var e := L.Entry("a", false);
    OneNameLeads(cwd, root, "docs");
    OneNameLeads(cwd, root, "a");
    LinkOfA(e);
    MergesAway("docs", "a");
    assert "/docs" == "/" + "docs" && "/a" == "/" + "a";
    N.ReceivedIs("/docs");
    N.ReceivedIs("/a");
    N.LinkLeadsToItsEntryIff(cwd, root, "/docs", e);
    assert |P.Lexical(cwd, root) + ["docs"] + ["a"]| != |P.Lexical(cwd, root) + ["a"]|;
  }

  lemma LinkOfA(e: L.Entry)
    requires e == L.Entry("a", false)
    ensures N.LinkOf(e) == "a" && L.IsName(e.name) && P.IsComponent(e.name)
  {
    assert "a"[1..] == "";
    assert UrlCodec.UrlEscape("a") == UrlCodec.EscapeByte('a') + UrlCodec.UrlEscape("") == "a";
  }
}
