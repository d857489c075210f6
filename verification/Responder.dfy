/** Which response src/server.c gives to a request, as a function of the request and of what the file
    system holds, and what follows from it. */
module Responder {
  import opened Prelude
  import opened Numerals
  import opened Ranges
  import opened HttpParser
  import opened Responses
  import opened Messages

  datatype FileError = NotFound | Forbidden | Internal

  type Body = s: string | |s| <= SIZE_MAX witness ""

  /** What `file_stat_path` and the calls after it find at a request path: nothing to serve; a directory,
      whose listing may fail; or a regular file with the size `stat` reported, the content an `fopen` that
      may fail will read, and whether seeking in it works. */
  datatype Resource =
    | Unavailable(error: FileError)
    | Directory(listing: Option<Body>)
    | Regular(size: Size, mime: Mime, content: Option<string>, seekable: bool)

  type Files = string -> Resource

  /** `status_from_file_result`. */
  function StatusOf(e: FileError): (r: nat) {
    match e
    case NotFound => 404
    case Forbidden => 403
    case Internal => 500
  }

  function Simple(http10: bool, toHead: bool, status: nat, body: Body, keepAlive: bool): (r: Response) {
    Response(ResponseHead(http10, status, "text/plain", |body|, [], keepAlive),
             toHead, if toHead then "" else body, true)
  }

  function ErrorBody(e: FileError): (b: Body)
    ensures |b| <= 30
  {
    match e
    case NotFound => "404 Not Found\n"
    case Forbidden => "403 Forbidden\n"
    case Internal => "500 Internal Server Error\n"
  }

  /** The bytes from `start` on, `length` of them if there are so many. */
  function Slice(content: string, start: nat, length: nat): (r: string) {
    content[Min(start, |content|)..Min(start + length, |content|)]
  }

  function ContentRange(r: ByteRange, size: Size): (result: Field) {
    Field("Content-Range", "bytes " + (PrintSize(r.start) + ("-" + (PrintSize(r.end) + ("/" + PrintSize(size))))))
  }

  function UnsatisfiedRange(size: Size): (r: Field) {
    Field("Content-Range", "bytes */" + PrintSize(size))
  }

  const ACCEPT_RANGES := Field("Accept-Ranges", "bytes")

  function NotSatisfiable(http10: bool, toHead: bool, size: Size, keepAlive: bool): (r: Response) {
    var body := "Range Not Satisfiable\n";
    Response(ResponseHead(http10, 416, "text/plain", |body|, [UnsatisfiedRange(size)], keepAlive),
             toHead, if toHead then "" else body, true)
  }

  function FileHead(http10: bool, mime: Mime, size: Size, r: ByteRange, keepAlive: bool): (result: ResponseHead) {
    if r.partial then ResponseHead(http10, 206, mime, r.length, [ContentRange(r, size), ACCEPT_RANGES], keepAlive)
    else ResponseHead(http10, 200, mime, size, [ACCEPT_RANGES], keepAlive)
  }

  function FileResponse(req: Request, size: Size, mime: Mime, content: string, r: ByteRange): (result: Response) {
    var toHead := req.verb == Verb.Head;
    var body := if toHead then "" else Slice(content, r.start, r.length);
    Response(FileHead(req.version == Http10, mime, size, r, req.keepAlive), toHead, body, toHead || |body| == r.length)
  }

  function InternalError(req: Request): (r: Response) {
    Simple(req.version == Http10, req.verb == Verb.Head, 500, "Internal Server Error\n", false)
  }

  /** The answer for a regular file; opening it or seeking in it may fail. */
  function FileAnswer(req: Request, size: Size, mime: Mime, content: Option<string>, seekable: bool): (r: Response) {
    if content == None then InternalError(req)
    else
      match ResolveRange(req.range, size)
      case None => NotSatisfiable(req.version == Http10, req.verb == Verb.Head, size, req.keepAlive)
      case Some(r) =>
        if r.partial && !seekable then InternalError(req) else FileResponse(req, size, mime, content.value, r)
  }

  /** The answer for a directory; listing it may fail. */
  function DirectoryAnswer(req: Request, listing: Option<Body>): (r: Response) {
    match listing
    case None => InternalError(req)
    case Some(html) =>
      Response(ResponseHead(req.version == Http10, 200, "text/html", |html|, [], req.keepAlive),
               req.verb == Verb.Head, if req.verb == Verb.Head then "" else html, true)
  }

  function Respond(req: Request, res: Resource): (r: Response) {
    var http10, toHead := req.version == Http10, req.verb == Verb.Head;
    if req.verb == Unsupported then Simple(http10, toHead, 501, "Not Implemented\n", req.keepAlive)
    else
      match res
      case Unavailable(e) => Simple(http10, toHead, StatusOf(e), ErrorBody(e), req.keepAlive)
      case Directory(listing) => DirectoryAnswer(req, listing)
      case Regular(size, mime, content, seekable) => FileAnswer(req, size, mime, content, seekable)
  }

  /** The three paths that answer 500 although the path was resolved. */
  predicate FailsInside(req: Request, res: Resource) {
    req.verb != Unsupported &&
    match res
    case Unavailable(_) => false
    case Directory(listing) => listing == None
    case Regular(size, _, content, seekable) =>
      content == None || (!seekable && ResolveRange(req.range, size).Some?
        && ResolveRange(req.range, size).value.partial)
  }

  lemma RespondKeepsAlive(req: Request, res: Resource)
    ensures Respond(req, res).head.keepAlive <==> req.keepAlive && !FailsInside(req, res)
  {
  }

  lemma FileFailsInsideIff(req: Request, size: Size, mime: Mime, content: Option<string>, seekable: bool)
    requires req.verb != Unsupported
    ensures FileAnswer(req, size, mime, content, seekable).head.status == 500
       <==> FailsInside(req, Regular(size, mime, content, seekable))
  {
  }

  /** Whatever fails behind a good path is answered by 500, and a reader sees the end of the connection announced. */
  lemma InsideIsInternal(req: Request, res: Resource, rest: string)
    ensures FailsInside(req, res) <==> !res.Unavailable? && Respond(req, res).head.status == 500
    ensures FailsInside(req, res) ==> AnnouncesClose(Respond(req, res).Wire() + rest)
  {
    if req.verb != Unsupported && res.Regular? {
      FileFailsInsideIff(req, res.size, res.mime, res.content, res.seekable);
    }
    RespondKeepsAlive(req, res);
    RespondIsValid(req, res);
    AnnouncesCloseIff(Respond(req, res), rest);
  }

  /** The answer to anything that is not a request. */
  function BadRequest(): (r: Response) {
    Simple(false, false, 400, "Bad Request\n", false)
  }

  /** What the main thread sends if the queue is full, src/server.c:596. */
  function Overloaded(): (r: Response) {
    Simple(false, false, 503, "Service Unavailable\n", false)
  }

  /** A reader gets an answer of this kind with its status and text, and sees that the connection will be closed. */
  lemma TextReads(status: nat, text: Body, rest: string)
    requires 400 <= status <= 599
    ensures var r := Simple(false, false, status, text, false);
            && ReadMessage(r.Wire() + rest, false) == Some((Message(status, text), rest))
            && AnnouncesClose(r.Wire() + rest)
  {
    var r := Simple(false, false, status, text, false);
    OneMessageIff(r, false, rest);
    AnnouncesCloseIff(r, rest);
  }

  /** A full queue is answered by 503. */
  lemma OverloadedReads(rest: string)
    ensures ReadMessage(Overloaded().Wire() + rest, false) == Some((Message(503, "Service Unavailable\n"), rest))
    ensures AnnouncesClose(Overloaded().Wire() + rest)
  {
    TextReads(503, "Service Unavailable\n", rest);
  }

  /** What is no request is answered by 400. */
  lemma BadRequestReads(rest: string)
    ensures ReadMessage(BadRequest().Wire() + rest, false) == Some((Message(400, "Bad Request\n"), rest))
    ensures AnnouncesClose(BadRequest().Wire() + rest)
  {
    TextReads(400, "Bad Request\n", rest);
  }

  // --- every response is well formed -----------------------------------------------------------------------

  lemma AcceptRangesIsExtra()
    ensures IsExtra(ACCEPT_RANGES)
  {
    TokenIsCanonical(ACCEPT_RANGES.value);
  }

  lemma UnsatisfiedRangeIsExtra(size: Size)
    ensures IsExtra(UnsatisfiedRange(size))
  {
    NumeralIsCanonical(size);
    SizeLength(size);
    assert IsDigit(PrintSize(size)[|PrintSize(size)| - 1]);
    TokenIsCanonical(UnsatisfiedRange(size).value);
  }

  lemma RangeText(a: string, b: string, c: string)
    requires '\r' !in a && '\r' !in b && '\r' !in c && c != ""
    ensures var v := "bytes " + (a + ("-" + (b + ("/" + c))));
            '\r' !in v && |v| == 8 + |a| + |b| + |c| && v[0] == 'b' && v[|v| - 1] == c[|c| - 1]
  {
  }

  lemma ContentRangeIsExtra(r: ByteRange, size: Size)
    ensures IsExtra(ContentRange(r, size))
  {
    NumeralIsCanonical(size);
    NumeralIsCanonical(r.start);
    NumeralIsCanonical(r.end);
    SizeLength(size);
    SizeLength(r.start);
    SizeLength(r.end);
    RangeText(PrintSize(r.start), PrintSize(r.end), PrintSize(size));
    assert IsDigit(PrintSize(size)[|PrintSize(size)| - 1]);
    TokenIsCanonical(ContentRange(r, size).value);
  }

  lemma NotSatisfiableIsValid(http10: bool, toHead: bool, size: Size, keepAlive: bool)
    ensures NotSatisfiable(http10, toHead, size, keepAlive).Valid()
  {
    UnsatisfiedRangeIsExtra(size);
  }

  lemma FileResponseIsValid(req: Request, size: Size, mime: Mime, content: string, r: ByteRange)
    requires !r.partial ==> r.length == size
    ensures FileResponse(req, size, mime, content, r).Valid()
  {
    AcceptRangesIsExtra();
    ContentRangeIsExtra(r, size);
  }

  lemma FileAnswerIsValid(req: Request, size: Size, mime: Mime, content: Option<string>, seekable: bool)
    ensures FileAnswer(req, size, mime, content, seekable).Valid()
  {
    NotSatisfiableIsValid(req.version == Http10, req.verb == Verb.Head, size, req.keepAlive);
    if content.Some? && ResolveRange(req.range, size).Some? {
      FileResponseIsValid(req, size, mime, content.value, ResolveRange(req.range, size).value);
    }
  }

  lemma RespondIsValid(req: Request, res: Resource)
    ensures Respond(req, res).Valid()
  {
    if res.Regular? {
      FileAnswerIsValid(req, res.size, res.mime, res.content, res.seekable);
    }
  }

  lemma FileHeadMirrorsGet(req: Request, size: Size, mime: Mime, content: Option<string>, seekable: bool)
    ensures var h := FileAnswer(req.(verb := Verb.Head), size, mime, content, seekable);
            h.head == FileAnswer(req.(verb := Get), size, mime, content, seekable).head && h.body == "" && h.complete
  {
  }

  /** The file a request finds is opened, and which part of it is sent. */
  predicate SendsFile(req: Request, res: Resource) {
    && req.verb != Unsupported && res.Regular? && res.content.Some? && ResolveRange(req.range, res.size).Some?
    && (ResolveRange(req.range, res.size).value.partial ==> res.seekable)
  }

  /** A GET for a file that has become shorter than the part of it that is announced. */
  predicate IsShort(req: Request, res: Resource) {
    && req.verb == Get && SendsFile(req, res)
    && var r := ResolveRange(req.range, res.size).value;
       r.length > 0 && |res.content.value| < r.start + r.length
  }

  lemma SliceLength(content: string, start: nat, length: nat)
    ensures |Slice(content, start, length)| == length <==> length == 0 || start + length <= |content|
  {
  }

  lemma FileCompleteIff(req: Request, size: Size, mime: Mime, content: Option<string>, seekable: bool)
    requires req.verb != Unsupported
    ensures FileAnswer(req, size, mime, content, seekable).complete
       <==> !IsShort(req, Regular(size, mime, content, seekable))
  {
    if content.Some? && ResolveRange(req.range, size).Some? {
      var r := ResolveRange(req.range, size).value;
      SliceLength(content.value, r.start, r.length);
    }
  }

  /** A response is incomplete only for that reason. */
  lemma CompleteIff(req: Request, res: Resource)
    ensures Respond(req, res).complete <==> !IsShort(req, res)
  {
    if req.verb != Unsupported && res.Regular? {
      FileCompleteIff(req, res.size, res.mime, res.content, res.seekable);
    }
  }

  /** A request for an empty listing or for nothing of a file. */
  predicate FindsNothing(req: Request, res: Resource) {
    || (req.verb != Unsupported && res == Directory(Some("")))
    || (SendsFile(req, res) && ResolveRange(req.range, res.size).value.length == 0)
  }

  /** Nothing is announced only for such requests. */
  lemma AnnouncesNothingIff(req: Request, res: Resource)
    ensures Respond(req, res).head.length == 0 <==> FindsNothing(req, res)
  {
    if req.verb != Unsupported {
      match res
      case Unavailable(e) => ErrorsHaveText(e);
      case Directory(listing) => EmptyListingIff(req, listing);
      case Regular(size, mime, content, seekable) => FileAnnouncesNothingIff(req, size, mime, content, seekable);
    }
  }

  lemma ErrorsHaveText(e: FileError)
    ensures |ErrorBody(e)| > 0
  {
  }

  lemma EmptyListingIff(req: Request, listing: Option<Body>)
    ensures DirectoryAnswer(req, listing).head.length == 0 <==> listing == Some("")
  {
  }

  lemma FileAnnouncesNothingIff(req: Request, size: Size, mime: Mime, content: Option<string>, seekable: bool)
    requires req.verb != Unsupported
    ensures FileAnswer(req, size, mime, content, seekable).head.length == 0
       <==> FindsNothing(req, Regular(size, mime, content, seekable))
  {
    if ResolveRange(req.range, size).Some? {
      WholeHasItsSize(req.range, size);
    }
  }

  lemma WholeHasItsSize(f: RangeFields, size: Size)
    requires ResolveRange(f, size).Some?
    ensures var r := ResolveRange(f, size).value; !r.partial ==> r.start == 0 && r.length == size
  {
  }

  /** A HEAD request gets, byte for byte, the header block the same GET request gets, whatever is at the path
      and whatever range is asked for. */
  lemma HeadMirrorsGet(req: Request, res: Resource)
    ensures var h := Respond(req.(verb := Verb.Head), res);
            h.Wire() == Respond(req.(verb := Get), res).head.Print() && |h.body| == 0 && h.complete
  {
    if res.Regular? {
      FileHeadMirrorsGet(req, res.size, res.mime, res.content, res.seekable);
    }
    var h, g := Respond(req.(verb := Verb.Head), res), Respond(req.(verb := Get), res);
    assert h.head == g.head && h.body == "" && h.complete;
    NothingAdded(h);
  }

  lemma NothingAdded(r: Response)
    requires r.body == ""
    ensures r.Wire() == r.head.Print()
  {
  }

  /** That a response sends a whole file. */
  predicate IsWhole(r: Response, content: string) {
    r.complete && r.head.status == 200 && r.body == content
  }

  /** That a response is the answer to a GET for a range of a file: 416 if the range is not satisfiable; else, with 206,
      exactly the selected positions, in order. Of an empty file a suffix is all, and no 206 can say so. */
  ghost predicate Transfers(r: Response, asked: Asked, content: string) {
    && r.complete
    && if !IsSatisfiable(asked, |content|) then r.head.status == 416
       else if content == "" then IsWhole(r, content)
       else
         && r.head.status == 206
         && exists a: nat, b: nat :: IsSelectedSlice(asked, content, a, b) && r.body == content[a..b]
  }

  ghost predicate IsSelectedSlice(asked: Asked, content: string, a: nat, b: nat) {
    a < b <= |content| && forall i: nat :: Selects(asked, |content|, i) <==> a <= i < b
  }

  /** What the fields of a request ask for, done. */
  ghost predicate DoesAsTold(r: Response, f: RangeFields, content: string) {
    match Wanted(Meaning(f))
    case None => IsWhole(r, content)
    case Some(asked) => Transfers(r, asked, content)
  }

  lemma RangedFileTransfers(req: Request, size: Size, mime: Mime, content: string)
    requires req.verb == Get && |content| == size && req.range.has && SuffixMatches(req.range, size)
    ensures DoesAsTold(FileAnswer(req, size, mime, Some(content), true), req.range, content)
  {
    ResolvedIsSelectedIff(req.range, size);
    var range := ResolveRange(req.range, size);
    var asked := Wanted(Meaning(req.range)).value;
    if range.Some? {
      var a, b := range.value.start, range.value.end + 1;
      assert Slice(content, a, range.value.length) == content[a..b];
      assert IsSelectedSlice(asked, content, a, b);
    }
  }

  /** A completed GET of a file transfers what the range fields ask for, exactly if these are neither a zero suffix of a
      file that has any bytes, which gets an empty 206 in place of a 416, nor a nonzero suffix of an empty file, which
      gets a 416. */
  lemma GetTransfersSelectionIff(req: Request, size: Size, mime: Mime, content: string)
    requires req.verb == Get && |content| == size
    ensures DoesAsTold(Respond(req, Regular(size, mime, Some(content), true)), req.range, content)
       <==> SuffixMatches(req.range, size)
  {
    if !req.range.has {
      assert content[0..size] == content;
    } else if SuffixMatches(req.range, size) {
      RangedFileTransfers(req, size, mime, content);
    }
  }

  /** Without a Range line a GET transfers the whole file. */
  lemma NoRangeLineEndToEnd(lines: seq<string>, req: Request, size: Size, mime: Mime, content: string)
    requires ValuesOf(lines, "Range") == [] && req.range == ApplyLines(NO_HEADERS, lines).range
    requires req.verb == Get && |content| == size
    ensures IsWhole(Respond(req, Regular(size, mime, Some(content), true)), content)
  {
    HeadersMean(lines);
    RangeSpecsOfValues(lines);
    GetTransfersSelectionIff(req, size, mime, content);
  }

  /** A suffix that asks for the whole of an empty file. */
  predicate IsEmptySuffix(asked: Asked, size: nat) {
    asked.LastBytes? && asked.n > 0 && size == 0
  }

  /** From the header lines to the bytes, with one Range line of any text. If it asks for a range, a GET transfers the
      range exactly if the line is taken as a range: no number is larger than SIZE_MAX, a suffix count is not zero, and
      there is no comma; only of an empty file a suffix is transferred exactly if it is not taken. What is not taken,
      and what does not ask for a range, gets the whole file. */
  lemma OneRangeLineEndToEnd(lines: seq<string>, value: string, req: Request, size: Size, mime: Mime, content: string)
    requires ValuesOf(lines, "Range") == [value] && req.range == ApplyLines(NO_HEADERS, lines).range
    requires req.verb == Get && |content| == size
    ensures var r := Respond(req, Regular(size, mime, Some(content), true));
            && (forall asked :: Requests(value, asked) ==>
                  (Transfers(r, asked, content) <==> (IsTaken(value, asked) <==> !IsEmptySuffix(asked, size))))
            && ((forall asked :: Requests(value, asked) ==> !IsTaken(value, asked)) ==> IsWhole(r, content))
  {
    HeadersMean(lines);
    RangeSpecsOfValues(lines);
    assert RangeSpecs(lines) == [ParseRange(value)];
    OneLineIsNeverZeroSuffix(value);
    GetTransfersSelectionIff(req, size, mime, content);
    var r, read := Respond(req, Regular(size, mime, Some(content), true)), Wanted(ParseRange(value));
    assert Wanted(Meaning(req.range)) == read;
    forall asked | Requests(value, asked)
      ensures Transfers(r, asked, content) <==> (IsTaken(value, asked) <==> !IsEmptySuffix(asked, size))
      ensures read == if IsTaken(value, asked) then Some(asked) else None
    {
      RequestedIsRead(value, asked);
    }
    if read.Some? {
      ReadIsRequested(value);
    }
  }
}
