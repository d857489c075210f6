/** What the header block of a response tells its client about the content: version, media type, and by section 14.4 of
    RFC 9110 which part of it the body is. */
module PartialContent {
  import opened Prelude
  import opened Text
  import opened Numerals
  import opened Ranges
  import opened HttpParser
  import opened HttpPrinter
  import opened Responses
  import opened Messages
  import opened Responder

  // --- reading Content-Range ---------------------------------------------------------------------------------

  /** `range-resp` and `unsatisfied-range` of section 14.4 of RFC 9110, with a known complete length. */
  datatype Position = Part(first: nat, last: nat, complete: nat) | NoPart(complete: nat)

  predicate IsNumber(s: string) {
    s != "" && IsDigits(s)
  }

  function ReadPart(s: string): (r: Option<Position>) {
    var dash := IndexOf(s, '-');
    if dash == |s| then None
    else
      var t := s[dash + 1..];
      var slash := IndexOf(t, '/');
      if slash == |t| then None else PartOf(s[..dash], t[..slash], t[slash + 1..])
  }

  function PartOf(first: string, last: string, complete: string): (r: Option<Position>) {
    if IsNumber(first) && IsNumber(last) && IsNumber(complete) then
      Some(Part(Value(first), Value(last), Value(complete)))
    else None
  }

  function ReadContentRange(value: string): (r: Option<Position>) {
    if !("bytes " <= value) then None
    else if "*/" <= value[6..] then if IsNumber(value[8..]) then Some(NoPart(Value(value[8..]))) else None
    else ReadPart(value[6..])
  }

  lemma Piece(a: string, c: char, rest: string)
    requires IsDigits(a) && !IsDigit(c)
    ensures var s := a + ([c] + rest); IndexOf(s, c) == |a| < |s| && s[..|a|] == a && s[|a| + 1..] == rest
  {
    var s := a + ([c] + rest);
    Cut(a, [c] + rest);
    assert s[|a|] == c && forall j :: 0 <= j < |a| ==> s[j] == a[j] && IsDigit(a[j]);
    assert s[|a| + 1..] == s[|a|..][1..];
  }

  lemma PiecesRead(s: string, t: string, a: string, b: string, c: string)
    requires IndexOf(s, '-') == |a| < |s| && s[..|a|] == a && s[|a| + 1..] == t
    requires IndexOf(t, '/') == |b| < |t| && t[..|b|] == b && t[|b| + 1..] == c
    ensures ReadPart(s) == PartOf(a, b, c)
  {
  }

  lemma PartReads(a: string, b: string, c: string)
    requires IsNumber(a) && IsNumber(b) && IsNumber(c)
    ensures ReadPart(a + ("-" + (b + ("/" + c)))) == Some(Part(Value(a), Value(b), Value(c)))
  {
    var t := b + ("/" + c);
    Piece(b, '/', c);
    Piece(a, '-', t);
    PiecesRead(a + ("-" + t), t, a, b, c);
  }

  lemma BytesPartReads(s: string)
    requires s != "" && IsDigit(s[0])
    ensures ReadContentRange("bytes " + s) == ReadPart(s)
  {
    Cut("bytes ", s);
  }

  lemma NoPartReads(c: string)
    requires IsNumber(c)
    ensures ReadContentRange("bytes */" + c) == Some(NoPart(Value(c)))
  {
    var value := "bytes */" + c;
    assert value[..6] == "bytes " && value[6..] == "*/" + c && value[8..] == c;
  }

  // --- reading the header block ------------------------------------------------------------------------------

  /** The values of all fields called `name` that a reader finds. */
  ghost function Told(text: string, name: string): (r: seq<string>) {
    ValuesOf(LinesOf(text), name)
  }

  lemma WireTells(r: Response, name: string, rest: string)
    requires r.head.Valid()
    ensures Told(r.Wire() + rest, name) == FieldValues(r.head.Fields(), name)
    ensures |r.Wire()| >= 12 && (r.Wire() + rest)[9..12] == PrintSize(r.head.status)
  {
    var head := r.head.Print();
    Assoc(head, r.body, rest);
    HeadReadsBack(r.head, head, r.body + rest);
    FieldsAreCanonical(r.head);
    ValuesOfFieldLines(r.head.Fields(), name);
  }

  lemma {:induction false} FieldValuesAppend(fs: seq<Field>, gs: seq<Field>, name: string)
    ensures FieldValues(fs + gs, name) == FieldValues(fs, name) + FieldValues(gs, name)
    decreases |gs|
  {
    if gs == [] {
      assert fs + gs == fs;
    } else {
      var init := gs[..|gs| - 1];
      FieldValuesAppend(fs, init, name);
      assert (fs + gs)[..|fs + gs| - 1] == fs + init;
    }
  }

  lemma OneFieldValue(f: Field, name: string)
    ensures FieldValues([f], name) == if EqualIgnoringCase(f.name, name) then [f.value] else []
  {
    assert [f][..0] == [];
  }

  /** All fields of a head with one name, by the three it always has and the others. */
  lemma FieldsByName(h: ResponseHead, name: string)
    ensures FieldValues(h.Fields(), name)
         == (if EqualIgnoringCase("Content-Type", name) then [h.contentType] else [])
            + (if EqualIgnoringCase("Content-Length", name) then [PrintSize(h.length)] else [])
            + FieldValues(h.extra, name)
            + (if EqualIgnoringCase("Connection", name) then [ConnectionText(h.keepAlive)] else [])
  {
    var t, l := Field("Content-Type", h.contentType), Field("Content-Length", PrintSize(h.length));
    var c := Field("Connection", ConnectionText(h.keepAlive));
    OneFieldValue(t, name);
    OneFieldValue(l, name);
    OneFieldValue(c, name);
    FieldValuesAppend([t], [l], name);
    FieldValuesAppend([t, l], h.extra, name);
    FieldValuesAppend([t, l] + h.extra, [c], name);
    assert [t] + [l] == [t, l];
  }

  lemma DifferentNames()
    ensures !EqualIgnoringCase("Content-Type", "Content-Range") && !EqualIgnoringCase("Content-Length", "Content-Range")
    ensures !EqualIgnoringCase("Connection", "Content-Range") && !EqualIgnoringCase("Accept-Ranges", "Content-Range")
    ensures EqualIgnoringCase("Content-Range", "Content-Range") && EqualIgnoringCase("Content-Type", "Content-Type")
    ensures !EqualIgnoringCase("Content-Length", "Content-Type") && !EqualIgnoringCase("Connection", "Content-Type")
    ensures !EqualIgnoringCase("Content-Range", "Content-Type") && !EqualIgnoringCase("Accept-Ranges", "Content-Type")
  {
    assert |"Content-Type"| == 12 && |"Content-Length"| == 14 && |"Content-Range"| == 13 && |"Accept-Ranges"| == 13;
    assert |"Connection"| == 10;
    assert Lower("Accept-Ranges"[0]) != Lower("Content-Range"[0]);
  }

  lemma ContentRangesOf(h: ResponseHead)
    ensures FieldValues(h.Fields(), "Content-Range") == FieldValues(h.extra, "Content-Range")
  {
    DifferentNames();
    FieldsByName(h, "Content-Range");
  }

  // --- parts ---------------------------------------------------------------------------------------------------

  lemma PartialHead(http10: bool, mime: Mime, size: Size, r: ByteRange, keepAlive: bool)
    ensures FieldValues(FileHead(http10, mime, size, r, keepAlive).extra, "Content-Range")
         == if r.partial then [ContentRange(r, size).value] else []
  {
    DifferentNames();
    OneFieldValue(ACCEPT_RANGES, "Content-Range");
    OneFieldValue(ContentRange(r, size), "Content-Range");
    FieldValuesAppend([ContentRange(r, size)], [ACCEPT_RANGES], "Content-Range");
    assert [ContentRange(r, size)] + [ACCEPT_RANGES] == [ContentRange(r, size), ACCEPT_RANGES];
  }

  lemma RefusingHead(size: Size)
    ensures FieldValues([UnsatisfiedRange(size)], "Content-Range") == [UnsatisfiedRange(size).value]
  {
    DifferentNames();
    OneFieldValue(UnsatisfiedRange(size), "Content-Range");
  }

  lemma PrintedPartReads(r: ByteRange, size: Size)
    ensures ReadContentRange(ContentRange(r, size).value) == Some(Part(r.start, r.end, size))
  {
    PrintedValue(r.start);
    PrintedValue(r.end);
    PrintedValue(size);
    PartReads(PrintSize(r.start), PrintSize(r.end), PrintSize(size));
    BytesPartReads(PrintSize(r.start) + ("-" + (PrintSize(r.end) + ("/" + PrintSize(size)))));
  }

  lemma PrintedNoPartReads(size: Size)
    ensures ReadContentRange(UnsatisfiedRange(size).value) == Some(NoPart(size))
  {
    PrintedValue(size);
    NoPartReads(PrintSize(size));
  }

  /** That what a reader is told about the part is true: a 206 says once, and rightly, where in the content its body is
      from; a 416 says once how long the content is; any other response says nothing. */
  ghost predicate TellsTheTruth(told: seq<string>, status: nat, body: string, content: string) {
    if status == 206 then
      && |told| == 1 && ReadContentRange(told[0]).Some? && ReadContentRange(told[0]).value.Part?
      && var p := ReadContentRange(told[0]).value;
         p.complete == |content| && p.first <= p.last + 1 <= |content| && body == content[p.first..p.last + 1]
    else if status == 416 then |told| == 1 && ReadContentRange(told[0]) == Some(NoPart(|content|))
    else told == []
  }

  lemma BoundsOf(f: RangeFields, size: Size)
    requires ResolveRange(f, size).Some?
    ensures var r := ResolveRange(f, size).value;
            && (r.partial <==> f.has)
            && (r.partial ==>
                  && r.start <= r.end + 1 <= size && r.length == r.end + 1 - r.start
                  && (r.start <= r.end <==> !ZeroSuffix(f)))
  {
  }

  /** What a reader is told about the part of a file that is sent. */
  lemma FileTold(req: Request, size: Size, mime: Mime, content: string, rest: string, answer: Response)
    requires req.verb == Get && |content| == size
    requires answer == Respond(req, Regular(size, mime, Some(content), true))
    ensures Told(answer.Wire() + rest, "Content-Range")
         == match ResolveRange(req.range, size)
            case None => [UnsatisfiedRange(size).value]
            case Some(r) => if r.partial then [ContentRange(r, size).value] else []
  {
    RespondIsValid(req, Regular(size, mime, Some(content), true));
    WireTells(answer, "Content-Range", rest);
    ContentRangesOf(answer.head);
    match ResolveRange(req.range, size)
    case None => RefusingHead(size);
    case Some(r) => PartialHead(req.version == Http10, mime, size, r, req.keepAlive);
  }

  lemma FileSent(req: Request, size: Size, mime: Mime, content: string, answer: Response)
    requires req.verb == Get && |content| == size
    requires answer == Respond(req, Regular(size, mime, Some(content), true))
    ensures match ResolveRange(req.range, size)
            case None => answer.head.status == 416
            case Some(r) =>
              && answer.head.status == (if r.partial then 206 else 200)
              && answer.body == Slice(content, r.start, r.length)
  {
  }

  lemma TruthOfPart(value: string, r: ByteRange, content: string)
    requires ReadContentRange(value) == Some(Part(r.start, r.end, |content|))
    requires r.start <= r.end + 1 <= |content| && r.length == r.end + 1 - r.start
    ensures TellsTheTruth([value], 206, Slice(content, r.start, r.length), content)
  {
  }

  lemma TruthOfAnswer(f: RangeFields, size: Size, content: string, told: seq<string>, status: nat, body: string)
    requires |content| == size
    requires match ResolveRange(f, size)
             case None => told == [UnsatisfiedRange(size).value] && status == 416
             case Some(r) =>
               && told == (if r.partial then [ContentRange(r, size).value] else [])
               && status == (if r.partial then 206 else 200) && body == Slice(content, r.start, r.length)
    ensures TellsTheTruth(told, status, body, content)
    ensures status == 206 ==> var p := ReadContentRange(told[0]).value; p.first <= p.last <==> !ZeroSuffix(f)
  {
    if ResolveRange(f, size).Some? {
      var r := ResolveRange(f, size).value;
      BoundsOf(f, size);
      if r.partial {
        PrintedPartReads(r, size);
        TruthOfPart(ContentRange(r, size).value, r, content);
      }
    } else {
      PrintedNoPartReads(size);
    }
  }

  /** From a file to what the client is told: for any range fields, a GET of a file is answered with the truth about the
      part; and the part is not empty, if there is one, exactly if the fields are not a zero suffix. */
  lemma PartIsTrue(req: Request, size: Size, mime: Mime, content: string, rest: string)
    requires req.verb == Get && |content| == size
    ensures var answer := Respond(req, Regular(size, mime, Some(content), true));
            var told := Told(answer.Wire() + rest, "Content-Range");
            && TellsTheTruth(told, answer.head.status, answer.body, content)
            && (answer.head.status == 206 ==>
                  var p := ReadContentRange(told[0]).value; p.first <= p.last <==> !ZeroSuffix(req.range))
  {
    var answer := Respond(req, Regular(size, mime, Some(content), true));
    var told := Told(answer.Wire() + rest, "Content-Range");
    FileTold(req, size, mime, content, rest, answer);
    FileSent(req, size, mime, content, answer);
    TruthOfAnswer(req.range, size, content, told, answer.head.status, answer.body);
  }

  /** And it is the part that was asked for: with one Range line that is taken, the positions a 206 tells are exactly
      those the range selects. */
  lemma PartIsTheOneAskedFor(lines: seq<string>, value: string, asked: Asked, req: Request, size: Size, mime: Mime,
                             content: string, rest: string)
    requires ValuesOf(lines, "Range") == [value] && req.range == ApplyLines(NO_HEADERS, lines).range
    requires Requests(value, asked) && IsTaken(value, asked)
    requires req.verb == Get && |content| == size
    ensures var answer := Respond(req, Regular(size, mime, Some(content), true));
            var told := Told(answer.Wire() + rest, "Content-Range");
            && (answer.head.status == 206 <==> IsSatisfiable(asked, size) && size > 0)
            && (answer.head.status == 206 ==>
                  && TellsTheTruth(told, 206, answer.body, content)
                  && var p := ReadContentRange(told[0]).value;
                     p.first <= p.last && forall i: nat :: Selects(asked, size, i) <==> p.first <= i <= p.last)
  {
    HeadersMean(lines);
    RangeSpecsOfValues(lines);
    RequestedIsRead(value, asked);
    assert RangeSpecs(lines) == [ParseRange(value)];
    OneLineIsNeverZeroSuffix(value);
    PartIsTrue(req, size, mime, content, rest);
    assert Wanted(Meaning(req.range)) == Some(asked);
    ResolvedPart(req, asked, size, mime, content, rest);
  }

  lemma ResolvedPart(req: Request, asked: Asked, size: Size, mime: Mime, content: string, rest: string)
    requires req.verb == Get && |content| == size && req.range.has && !ZeroSuffix(req.range)
    requires Wanted(Meaning(req.range)) == Some(asked)
    ensures var answer := Respond(req, Regular(size, mime, Some(content), true));
            var told := Told(answer.Wire() + rest, "Content-Range");
            && (answer.head.status == 206 <==> IsSatisfiable(asked, size) && size > 0)
            && (answer.head.status == 206 ==>
                  && |told| == 1 && ReadContentRange(told[0]).Some? && ReadContentRange(told[0]).value.Part?
                  && var p := ReadContentRange(told[0]).value;
                     forall i: nat :: Selects(asked, size, i) <==> p.first <= i <= p.last)
  {
    var answer := Respond(req, Regular(size, mime, Some(content), true));
    FileTold(req, size, mime, content, rest, answer);
    FileSent(req, size, mime, content, answer);
    if size > 0 {
      ResolvedIsSelectedIff(req.range, size);
    }
    if ResolveRange(req.range, size).Some? {
      PrintedPartReads(ResolveRange(req.range, size).value, size);
    }
  }

  // --- ranges are accepted -----------------------------------------------------------------------------------

  lemma AcceptInExtra(r: ByteRange, size: Size)
    ensures FieldValues([ACCEPT_RANGES], "Accept-Ranges") == ["bytes"]
    ensures FieldValues([UnsatisfiedRange(size)], "Accept-Ranges") == [] == FieldValues([], "Accept-Ranges")
    ensures FieldValues([ContentRange(r, size), ACCEPT_RANGES], "Accept-Ranges") == ["bytes"]
  {
    assert Lower("Content-Range"[0]) != Lower("Accept-Ranges"[0]);
    OneFieldValue(ACCEPT_RANGES, "Accept-Ranges");
    OneFieldValue(UnsatisfiedRange(size), "Accept-Ranges");
    OneFieldValue(ContentRange(r, size), "Accept-Ranges");
    FieldValuesAppend([ContentRange(r, size)], [ACCEPT_RANGES], "Accept-Ranges");
    assert [ContentRange(r, size)] + [ACCEPT_RANGES] == [ContentRange(r, size), ACCEPT_RANGES];
  }

  lemma AcceptOfFile(req: Request, size: Size, mime: Mime, content: Option<string>, seekable: bool)
    ensures var h := FileAnswer(req, size, mime, content, seekable).head;
            FieldValues(h.extra, "Accept-Ranges") == if h.status in {200, 206} then ["bytes"] else []
  {
    if ResolveRange(req.range, size).Some? {
      AcceptInExtra(ResolveRange(req.range, size).value, size);
    } else {
      AcceptInExtra(ByteRange(0, 0, 0, false), size);
    }
  }

  lemma AcceptOfAnswer(req: Request, res: Resource)
    ensures var h := Respond(req, res).head;
            FieldValues(h.extra, "Accept-Ranges") == if res.Regular? && h.status in {200, 206} then ["bytes"] else []
  {
    if req.verb != Unsupported && res.Regular? {
      AcceptOfFile(req, res.size, res.mime, res.content, res.seekable);
    }
  }

  /** A client is told that ranges in bytes are accepted with every file, or part of one, and with nothing else. */
  lemma AcceptIsTold(req: Request, res: Resource, rest: string)
    ensures var told, status := Told(Respond(req, res).Wire() + rest, "Accept-Ranges"), Respond(req, res).head.status;
            told == if res.Regular? && status in {200, 206} then ["bytes"] else []
  {
    RespondIsValid(req, res);
    WireTells(Respond(req, res), "Accept-Ranges", rest);
    AcceptOfAnswer(req, res);
    OtherNames();
    FieldsByName(Respond(req, res).head, "Accept-Ranges");
  }

  lemma OtherNames()
    ensures !EqualIgnoringCase("Content-Type", "Accept-Ranges") && !EqualIgnoringCase("Content-Length", "Accept-Ranges")
    ensures !EqualIgnoringCase("Connection", "Accept-Ranges")
  {
    assert |"Content-Type"| == 12 && |"Content-Length"| == 14 && |"Connection"| == 10 && |"Accept-Ranges"| == 13;
  }

  // --- version and media type --------------------------------------------------------------------------------

  lemma TypeOf(h: ResponseHead)
    requires FieldValues(h.extra, "Content-Type") == []
    ensures FieldValues(h.Fields(), "Content-Type") == [h.contentType]
  {
    DifferentNames();
    FieldsByName(h, "Content-Type");
  }

  lemma NoTypeInExtra(r: ByteRange, size: Size)
    ensures FieldValues([ACCEPT_RANGES], "Content-Type") == [] == FieldValues([UnsatisfiedRange(size)], "Content-Type")
    ensures FieldValues([ContentRange(r, size), ACCEPT_RANGES], "Content-Type") == []
  {
    DifferentNames();
    OneFieldValue(ACCEPT_RANGES, "Content-Type");
    OneFieldValue(UnsatisfiedRange(size), "Content-Type");
    OneFieldValue(ContentRange(r, size), "Content-Type");
    FieldValuesAppend([ContentRange(r, size)], [ACCEPT_RANGES], "Content-Type");
    assert [ContentRange(r, size)] + [ACCEPT_RANGES] == [ContentRange(r, size), ACCEPT_RANGES];
  }

  lemma ExtraOfAnswer(req: Request, res: Resource)
    ensures FieldValues(Respond(req, res).head.extra, "Content-Type") == []
  {
    if res.Regular? {
      if ResolveRange(req.range, res.size).Some? {
        NoTypeInExtra(ResolveRange(req.range, res.size).value, res.size);
      } else {
        NoTypeInExtra(ByteRange(0, 0, 0, false), res.size);
      }
    }
  }

  lemma TypeIsTold(req: Request, res: Resource, rest: string)
    ensures Told(Respond(req, res).Wire() + rest, "Content-Type") == [Respond(req, res).head.contentType]
  {
    RespondIsValid(req, res);
    WireTells(Respond(req, res), "Content-Type", rest);
    ExtraOfAnswer(req, res);
    TypeOf(Respond(req, res).head);
  }

  /** The one media type a client is told: that of the file for what is sent of it, HTML for a listing, and plain text
      for everything the server has to say itself. */
  lemma TypeIsTrue(req: Request, res: Resource, rest: string)
    ensures var told, status := Told(Respond(req, res).Wire() + rest, "Content-Type"), Respond(req, res).head.status;
            && (res.Regular? && status in {200, 206} ==> told == [res.mime])
            && (res.Directory? && status == 200 ==> told == ["text/html"])
            && (status !in {200, 206} ==> told == ["text/plain"])
  {
    TypeIsTold(req, res, rest);
    TypeTable(req, res);
  }

  lemma TypeTable(req: Request, res: Resource)
    ensures var h := Respond(req, res).head;
            && (res.Regular? && h.status in {200, 206} ==> h.contentType == res.mime)
            && (res.Directory? && h.status == 200 ==> h.contentType == "text/html")
            && (h.status !in {200, 206} ==> h.contentType == "text/plain")
  {
  }

  lemma VersionStarts(h: ResponseHead, text: string)
    requires h.Print() <= text
    ensures text[..8] == if h.http10 then "HTTP/1.0" else "HTTP/1.1"
  {
    var version := if h.http10 then "HTTP/1.0" else "HTTP/1.1";
    assert version <= h.StatusLine();
    assert h.StatusLine() <= h.Print() by {
      Assoc(h.StatusLine(), CRLF, JoinLines(FieldLines(h.Fields())) + CRLF);
    }
  }

  lemma VersionOfFile(req: Request, size: Size, mime: Mime, content: Option<string>, seekable: bool)
    ensures FileAnswer(req, size, mime, content, seekable).head.http10 <==> req.version == Http10
  {
  }

  lemma VersionOfAnswer(req: Request, res: Resource)
    ensures Respond(req, res).head.http10 <==> req.version == Http10
  {
    if req.verb != Unsupported && res.Regular? {
      VersionOfFile(req, res.size, res.mime, res.content, res.seekable);
    }
  }

  /** The reason phrases of section 15 of RFC 9110 for the statuses the server uses. */
  predicate IsReason(status: nat, phrase: string) {
    || (status == 200 && phrase == "OK")
    || (status == 206 && phrase == "Partial Content")
    || (status == 400 && phrase == "Bad Request")
    || (status == 403 && phrase == "Forbidden")
    || (status == 404 && phrase == "Not Found")
    || (status == 416 && phrase == "Range Not Satisfiable")
    || (status == 500 && phrase == "Internal Server Error")
    || (status == 501 && phrase == "Not Implemented")
    || (status == 503 && phrase == "Service Unavailable")
  }

  lemma LowReason(status: nat)
    requires status in {200, 206, 400, 403, 404}
    ensures IsReason(status, StatusText(status))
  {
  }

  lemma HighReason(status: nat)
    requires status in {416, 500, 501, 503}
    ensures IsReason(status, StatusText(status))
  {
  }

  lemma FileStatusUsed(req: Request, size: Size, mime: Mime, content: Option<string>, seekable: bool)
    ensures FileAnswer(req, size, mime, content, seekable).head.status in {200, 206, 416, 500}
  {
  }

  lemma StatusUsed(req: Request, res: Resource)
    ensures Respond(req, res).head.status in {200, 206, 403, 404, 416, 500, 501}
  {
    if req.verb != Unsupported && res.Regular? {
      FileStatusUsed(req, res.size, res.mime, res.content, res.seekable);
    }
  }

  lemma LineEnds(version: string, digits: string, phrase: string)
    requires |version| == 8 && |digits| == 3
    ensures (version + " " + (digits + (" " + phrase)))[13..] == phrase
  {
  }

  lemma FirstLineOf(h: ResponseHead, tail: string)
    requires h.Valid()
    ensures FirstCrlf(h.Print() + tail) == |h.StatusLine()| <= |h.Print()|
    ensures h.StatusLine()[13..] == StatusText(h.status)
  {
    StatusLineIsPlain(h);
    StatusHasThreeDigits(h.status);
    LineEnds(if h.http10 then "HTTP/1.0" else "HTTP/1.1", PrintSize(h.status), StatusText(h.status));
    var line, fields := h.StatusLine(), JoinLines(FieldLines(h.Fields())) + CRLF;
    NoCrNoCrlf(line);
    Assoc(line + CRLF, fields, tail);
    LineEnd(line, fields + tail);
  }

  /** The first line of an answer ends in the reason phrase of its status. */
  lemma ReasonIsTold(req: Request, res: Resource, rest: string)
    ensures var text := Respond(req, res).Wire() + rest;
            && 13 <= FirstCrlf(text) < |text|
            && IsReason(Respond(req, res).head.status, text[13..FirstCrlf(text)])
  {
    var r := Respond(req, res);
    var text, line := r.Wire() + rest, r.head.StatusLine();
    RespondIsValid(req, res);
    Assoc(r.head.Print(), r.body, rest);
    FirstLineOf(r.head, r.body + rest);
    assert line <= r.head.Print() by {
      Assoc(line, CRLF, JoinLines(FieldLines(r.head.Fields())) + CRLF);
    }
    assert text[..|line|] == line;
    SliceOfPrefix(text, |line|, 13, |line|);
    StatusUsed(req, res);
    if r.head.status < 416 {
      LowReason(r.head.status);
    } else {
      HighReason(r.head.status);
    }
  }

  /** A response has the version of its request. */
  lemma VersionIsAnswered(req: Request, res: Resource, rest: string)
    ensures |Respond(req, res).Wire() + rest| >= 8
    ensures (Respond(req, res).Wire() + rest)[..8] == if req.version == Http10 then "HTTP/1.0" else "HTTP/1.1"
  {
    var r := Respond(req, res);
    Assoc(r.head.Print(), r.body, rest);
    VersionOfAnswer(req, res);
    RespondIsValid(req, res);
    WireTells(r, "Connection", rest);
    VersionStarts(r.head, r.Wire() + rest);
  }
}
