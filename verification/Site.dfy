/** What the server finds behind a request path: `file_stat_path`, the listing and the file of src/files.c, put together
    into the file system that module Responder answers from. */
module Site {
  import opened Prelude
  import opened UrlCodec
  import opened Listing
  import opened ListingBuilder
  import opened Paths
  import opened Responses
  import opened Responder
  import opened Numerals
  import HttpParser
  import Messages
  import Ranges

  /** What `stat` finds at a path, and what `readdir` or `fopen` then yields, either of which may fail. */
  datatype Node =
    | Missing
    | Unreadable
    | Special
    | Folder(names: Option<NameList>)
    | Document(size: Size, mime: Mime, content: Option<string>, seekable: bool)

  datatype Disk = Disk(root: string, realpath: string -> RealPath, node: string -> Node) {
    predicate IsFolder(path: string) {
      node(path).Folder?
    }
  }

  /** `FILE_RESULT_OK` does not occur as a rejection. */
  function ErrorOf(why: FileResult): (r: FileError) {
    match why
    case NotFound => FileError.NotFound
    case NotAllowed => FileError.Forbidden
    case _ => FileError.Internal
  }

  function EntriesIn(disk: Disk, resolved: string, names: NameList): (r: seq<Entry>) {
    Sort(Visible(names, resolved, disk.IsFolder))
  }

  lemma EntriesAre(disk: Disk, resolved: string, names: NameList)
    ensures AreEntries(EntriesIn(disk, resolved, names))
  {
    var shown := Visible(names, resolved, disk.IsFolder);
    VisibleAre(names, resolved, disk.IsFolder);
    SortKeeps(shown);
    InMultiset(Sort(shown), shown);
  }

  /** `file_build_directory_listing`, if memory is not refused. */
  function ListingOf(disk: Disk, path: string, resolved: string, names: Option<NameList>): (r: Option<Body>) {
    if names == None then None
    else
      EntriesAre(disk, resolved, names.value);
      var page := Page(path, EntriesIn(disk, resolved, names.value));
      if |page| < SIZE_MAX then Some(page) else None
  }

  /** `file_stat_path`, src/files.c:481-517, and what is served then. */
  function Find(disk: Disk, path: string): (r: Resource) {
    match Resolve(disk.root, path, disk.realpath, FILE_PATH_MAX)
    case Rejected(why) => Unavailable(ErrorOf(why))
    case Resolved(resolved) =>
      match disk.node(resolved)
      case Missing => Unavailable(FileError.NotFound)
      case Unreadable => Unavailable(FileError.Internal)
      case Special => Unavailable(FileError.Forbidden)
      case Folder(names) => Directory(ListingOf(disk, path, resolved, names))
      case Document(size, mime, content, seekable) => Regular(size, mime, content, seekable)
  }

  function FilesOn(disk: Disk): (r: Files) {
    (path: string) => Find(disk, path)
  }

  /** The page the method builds is the page that is served. */
  method BuildListing(disk: Disk, path: string, resolved: string, names: Option<NameList>)
    returns (listing: Option<string>, ghost refused: bool)
    requires Text.NUL !in path
    ensures listing.Some? ==> listing == ListingOf(disk, path, resolved, names)
    ensures listing == None && !refused ==> ListingOf(disk, path, resolved, names) == None
  {
    var result, body;
    ghost var copied;
    result, body, refused, copied := BuildDirectoryListing(path, resolved, names, disk.IsFolder);
    listing := if result == Ok then Some(body) else None;
  }

  // --- which status --------------------------------------------------------------------------------------------

  /** The status of the answer to a request for what is at `path`. */
  function StatusAt(disk: Disk, req: HttpParser.Request): (r: nat) {
    Respond(req, FilesOn(disk)(req.path)).head.status
  }

  lemma RejectedStatus(disk: Disk, req: HttpParser.Request, why: FileResult)
    requires req.verb != HttpParser.Unsupported
    requires Resolve(disk.root, req.path, disk.realpath, FILE_PATH_MAX) == Rejected(why)
    ensures StatusAt(disk, req) == if why == FileResult.NotFound then 404 else if why == NotAllowed then 403 else 500
  {
  }

  /** A path whose text is not accepted: forbidden for what it contains, an error if it is too long. */
  lemma RefusedTextStatus(disk: Disk, req: HttpParser.Request)
    requires req.verb != HttpParser.Unsupported
    ensures var d := Decode(req.path, FILE_PATH_MAX - 1);
            && (d.Forbidden? ==> StatusAt(disk, req) == 403)
            && (d.TooLong? ==> StatusAt(disk, req) == 500)
            && (d.Done? && HasDotDot(d.text) ==> StatusAt(disk, req) == 403)
  {
    var found := Resolve(disk.root, req.path, disk.realpath, FILE_PATH_MAX);
    if found.Rejected? {
      RejectedStatus(disk, req, found.result);
    }
  }

  /** A path whose text is accepted and that does not lead to a file below the root: 404 exactly if `realpath` says that
      there is none; 403 if it leads outside; 500 if it or the root cannot be resolved, or does not fit. */
  lemma UnresolvedStatus(disk: Disk, req: HttpParser.Request, text: string)
    requires req.verb != HttpParser.Unsupported
    requires Decode(req.path, FILE_PATH_MAX - 1) == Done(text) && !HasDotDot(text)
    ensures var joined := disk.root + "/" + Relative(text);
            if |joined| >= FILE_PATH_MAX || !disk.realpath(disk.root).Real? then StatusAt(disk, req) == 500
            else
              match disk.realpath(joined)
              case Absent => StatusAt(disk, req) == 404
              case Broken => StatusAt(disk, req) == 500
              case Real(target) =>
                && (!HasPrefix(target, disk.realpath(disk.root).path) ==> StatusAt(disk, req) == 403)
                && (HasPrefix(target, disk.realpath(disk.root).path) && |target| >= FILE_PATH_MAX ==>
                      StatusAt(disk, req) == 500)
                && (HasPrefix(target, disk.realpath(disk.root).path) && |target| < FILE_PATH_MAX ==>
                      Resolve(disk.root, req.path, disk.realpath, FILE_PATH_MAX) == Resolved(target))
  {
    var found := Resolve(disk.root, req.path, disk.realpath, FILE_PATH_MAX);
    if found.Rejected? {
      RejectedStatus(disk, req, found.result);
    }
  }

  /** A resolved path, by what `stat` and the calls after it find there. */
  lemma ResolvedStatus(disk: Disk, req: HttpParser.Request, resolved: string)
    requires req.verb != HttpParser.Unsupported
    requires Resolve(disk.root, req.path, disk.realpath, FILE_PATH_MAX) == Resolved(resolved)
    ensures match disk.node(resolved)
            case Missing => StatusAt(disk, req) == 404
            case Unreadable => StatusAt(disk, req) == 500
            case Special => StatusAt(disk, req) == 403
            case Folder(names) =>
              StatusAt(disk, req) == if ListingOf(disk, req.path, resolved, names) == None then 500 else 200
            case Document(size, _, content, seekable) =>
              if content == None then StatusAt(disk, req) == 500
              else
                match Ranges.ResolveRange(req.range, size)
                case None => StatusAt(disk, req) == 416
                case Some(r) =>
                  StatusAt(disk, req) == if !r.partial then 200 else if seekable then 206 else 500
  {
    match disk.node(resolved)
    case Folder(names) =>
    case Document(size, mime, content, seekable) => FileStatus(req, size, mime, content, seekable);
    case _ =>
  }

  lemma FileStatus(req: HttpParser.Request, size: Size, mime: Mime, content: Option<string>, seekable: bool)
    ensures FileAnswer(req, size, mime, content, seekable).head.status
         == if content == None then 500
            else
              match Ranges.ResolveRange(req.range, size)
              case None => 416
              case Some(r) => if !r.partial then 200 else if seekable then 206 else 500
  {
  }

  /** Other methods than GET and HEAD are not implemented, whatever is at the path; and what is no request is a bad
      one. */
  lemma UnsupportedStatus(disk: Disk, req: HttpParser.Request)
    requires req.verb == HttpParser.Unsupported
    ensures StatusAt(disk, req) == 501 && BadRequest().head.status == 400
  {
  }

  /** The text sent with an error of a path names its status and the reason phrase of the status line. */
  lemma ErrorTextIs(e: FileError)
    ensures ErrorBody(e) == PrintSize(StatusOf(e)) + (" " + (StatusText(StatusOf(e)) + "\n"))
  {
    match e
    case NotFound => NotFoundText();
    case Forbidden => ForbiddenText();
    case Internal => InternalText();
  }

  /** All other refusals, if they have a body, say just the reason phrase. */
  lemma RefusalTextIs(req: HttpParser.Request, res: Resource)
    requires req.verb != HttpParser.Head
    ensures var r := Respond(req, res);
            && (r.head.status == 501 ==> r.body == "Not Implemented\n")
            && (r.head.status == 416 ==> r.body == "Range Not Satisfiable\n")
            && (FailsInside(req, res) ==> r.head.status == 500 && r.body == "Internal Server Error\n")
  {
    if req.verb != HttpParser.Unsupported && res.Regular? {
      FileRefusalIs(req, res.size, res.mime, res.content, res.seekable);
    }
  }

  lemma FileRefusalIs(req: HttpParser.Request, size: Size, mime: Mime, content: Option<string>, seekable: bool)
    requires req.verb == HttpParser.Get
    ensures var r := FileAnswer(req, size, mime, content, seekable);
            && (r.head.status == 416 ==> r.body == "Range Not Satisfiable\n")
            && (r.head.status == 500 ==> r.body == "Internal Server Error\n")
            && r.head.status != 501
  {
  }

  lemma NotFoundText()
    ensures "404 Not Found\n" == PrintSize(404) + (" " + ("Not Found" + "\n"))
  {
    ThreeDigits(4, 0, 4);
  }

  lemma ForbiddenText()
    ensures "403 Forbidden\n" == PrintSize(403) + (" " + ("Forbidden" + "\n"))
  {
    ThreeDigits(4, 0, 3);
  }

  lemma InternalText()
    ensures "500 Internal Server Error\n" == PrintSize(500) + (" " + ("Internal Server Error" + "\n"))
  {
    ThreeDigits(5, 0, 0);
    PhraseAndNewline();
    NumberAndPhrase();
    Assoc(PrintSize(500), " ", "Internal Server Error\n");
    assert PrintSize(500) + " " == "500 ";
  }

  lemma PhraseAndNewline()
    ensures "Internal Server Error" + "\n" == "Internal Server Error\n"
  {
  }

  lemma NumberAndPhrase()
    ensures "500 " + "Internal Server Error\n" == "500 Internal Server Error\n"
  {
  }

  lemma ThreeDigits(a: nat, b: nat, c: nat)
    requires 0 < a < 10 && b < 10 && c < 10
    ensures PrintSize(100 * a + 10 * b + c)
         == [('0' as int + a) as char, ('0' as int + b) as char, ('0' as int + c) as char]
  {
    var n := 100 * a + 10 * b + c;
    assert n / 10 == 10 * a + b && n % 10 == c && n / 10 / 10 == a && (n / 10) % 10 == b;
    assert PrintSize(a) == [('0' as int + a) as char];
    assert PrintSize(n / 10) == PrintSize(a) + [('0' as int + b) as char];
  }

  // --- from the disk to the client -----------------------------------------------------------------------------

  /** From a file on the disk to the reader of the connection, without a Range line: one message, with 200 and the
      file. */
  lemma DocumentEndToEnd(disk: Disk, req: HttpParser.Request, resolved: string, size: Size, mime: Mime,
                         content: string, seekable: bool, rest: string)
    requires req.verb == HttpParser.Get && !req.range.has && |content| == size
    requires Resolve(disk.root, req.path, disk.realpath, FILE_PATH_MAX) == Resolved(resolved)
    requires disk.node(resolved) == Document(size, mime, Some(content), seekable)
    ensures var answer := Respond(req, FilesOn(disk)(req.path));
            Messages.ReadMessage(answer.Wire() + rest, false) == Some((Messages.Message(200, content), rest))
  {
    var answer := Respond(req, Find(disk, req.path));
    WholeDocument(req, size, mime, content, seekable);
    RespondIsValid(req, Find(disk, req.path));
    Messages.OneMessageIff(answer, false, rest);
  }

  lemma WholeDocument(req: HttpParser.Request, size: Size, mime: Mime, content: string, seekable: bool)
    requires req.verb == HttpParser.Get && !req.range.has && |content| == size
    ensures var answer := FileAnswer(req, size, mime, Some(content), seekable);
            answer.head.status == 200 && answer.body == content && answer.head.length == size
  {
    assert content[0..size] == content;
  }

  /** The same with a Range line of any text: one message; if the line asks for a range and is taken, with the range, or
      416, as the standard has it; else with 200 and the file. A suffix of an empty file apart, see
      `Responder.OneRangeLineEndToEnd`. */
  lemma DocumentRangeEndToEnd(disk: Disk, req: HttpParser.Request, resolved: string, size: Size, mime: Mime,
                              content: string, lines: seq<string>, value: string, rest: string)
    requires HttpParser.ValuesOf(lines, "Range") == [value]
    requires req.range == HttpParser.ApplyLines(HttpParser.NO_HEADERS, lines).range
    requires req.verb == HttpParser.Get && |content| == size
    requires Resolve(disk.root, req.path, disk.realpath, FILE_PATH_MAX) == Resolved(resolved)
    requires disk.node(resolved) == Document(size, mime, Some(content), true)
    ensures var answer := Respond(req, FilesOn(disk)(req.path));
            && Messages.ReadMessage(answer.Wire() + rest, false)
               == Some((Messages.Message(answer.head.status, answer.body), rest))
            && (forall asked ::
                  Ranges.Requests(value, asked) && Ranges.IsTaken(value, asked) && !IsEmptySuffix(asked, size) ==>
                    Transfers(answer, asked, content))
            && ((forall asked :: Ranges.Requests(value, asked) ==> !Ranges.IsTaken(value, asked)) ==>
                  IsWhole(answer, content))
  {
    var answer := Respond(req, Find(disk, req.path));
    OneRangeLineEndToEnd(lines, value, req, size, mime, content);
    RespondIsValid(req, Find(disk, req.path));
    CompleteDocument(req, size, mime, content);
    Messages.OneMessageIff(answer, false, rest);
  }

  lemma CompleteDocument(req: HttpParser.Request, size: Size, mime: Mime, content: string)
    requires req.verb == HttpParser.Get && |content| == size
    ensures var answer := Respond(req, Regular(size, mime, Some(content), true)); answer.complete && !answer.toHead
  {
    CompleteIff(req, Regular(size, mime, Some(content), true));
    RangeIsWithin(req.range, size);
  }

  lemma RangeIsWithin(f: Ranges.RangeFields, size: Size)
    ensures Ranges.ResolveRange(f, size).Some? ==>
              var r := Ranges.ResolveRange(f, size).value; r.start + r.length <= size
  {
  }

  /** From the directory to the reader of the connection: the answer to a GET of a directory is one message, and its
      body tells the requested path and exactly the directory's visible entries, each once, in strictly
      increasing order. */
  lemma DirectoryEndToEnd(disk: Disk, req: HttpParser.Request, resolved: string, names: NameList, rest: string)
    requires req.verb == HttpParser.Get && NoDuplicates(names)
    requires Resolve(disk.root, req.path, disk.realpath, FILE_PATH_MAX) == Resolved(resolved)
    requires disk.node(resolved) == Folder(Some(names)) && ListingOf(disk, req.path, resolved, Some(names)).Some?
    ensures var answer := Respond(req, FilesOn(disk)(req.path));
            var es := EntriesIn(disk, resolved, names);
            && Messages.ReadMessage(answer.Wire() + rest, false) == Some((Messages.Message(200, answer.body), rest))
            && ReadPage(answer.body) == Some((req.path, es))
            && StrictlyOrdered(es)
            && forall e :: e in es <==>
                           exists name :: name in names && Shows(e, name, resolved, disk.IsFolder)
  {
    ListingTellsTheDirectory(req.path, names, resolved, disk.IsFolder);
    FolderMessage(req, ListingOf(disk, req.path, resolved, Some(names)).value, rest);
  }

  lemma FolderMessage(req: HttpParser.Request, page: Body, rest: string)
    requires req.verb == HttpParser.Get
    ensures var answer := Respond(req, Directory(Some(page)));
            && answer.body == page
            && Messages.ReadMessage(answer.Wire() + rest, false) == Some((Messages.Message(200, page), rest))
  {
    RespondIsValid(req, Directory(Some(page)));
    Messages.OneMessageIff(Respond(req, Directory(Some(page))), false, rest);
  }
}
