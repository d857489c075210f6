/** The request parser of src/http.c. */
module HttpParser {
  import opened Prelude
  import opened Text
  import opened Numerals
  import opened Ranges

  const METHOD_TEXT_MAX: nat := 16
  const PATH_MAX: nat := 1024
  const VERSION_TEXT_MAX: nat := 16
  const CONNECTION_TEXT_MAX: nat := 32

  datatype Verb = Get | Head | Unsupported
  datatype Version = Http10 | Http11 | Unknown

  /** What the rest of the server reads of an `http_request_t`. */
  datatype Request = Request(verb: Verb, path: string, version: Version, keepAlive: bool, range: RangeFields)

  function VerbOf(text: string): (r: Verb) {
    if text == "GET" then Get else if text == "HEAD" then Head else Unsupported
  }

  function VersionOf(text: string): (r: Version) {
    if text == "HTTP/1.0" then Http10 else if text == "HTTP/1.1" then Http11 else Unknown
  }

  // --- the header section ----------------------------------------------------------------------------

  /** The nonempty lines before the first empty or unterminated one. */
  ghost function HeaderLines(s: string): (r: seq<string>)
    decreases |s|
  {
    var k := FirstCrlf(s);
    if k == |s| || k == 0 then [] else [s[..k]] + HeaderLines(s[k + 2..])
  }

  /** A header line split at its first colon. */
  datatype Field = Field(name: string, value: string)

  function FieldOf(line: string): (r: Option<Field>) {
    var colon := IndexOf(line, ':');
    if colon == |line| then None else Some(Field(line[..colon], TrimEnd(SkipBlanks(line[colon + 1..]))))
  }

  predicate IsField(line: string, name: string) {
    FieldOf(line).Some? && EqualIgnoringCase(FieldOf(line).value.name, name)
  }

  /** The two things the headers decide. */
  datatype Headers = Headers(connection: string, range: RangeFields)

  const NO_HEADERS := Headers("", NO_RANGE)

  function ApplyLine(h: Headers, line: string): (r: Headers) {
    if IsField(line, "Connection") then
      h.(connection := CopyBounded(FieldOf(line).value.value, CONNECTION_TEXT_MAX))
    else if IsField(line, "Range") then
      h.(range := Apply(h.range, ParseRange(FieldOf(line).value.value)))
    else h
  }

  function ApplyLines(h: Headers, lines: seq<string>): (r: Headers) {
    if lines == [] then h else ApplyLine(ApplyLines(h, lines[..|lines| - 1]), lines[|lines| - 1])
  }

  /** The value of the last header line called `name`. */
  function LastValue(lines: seq<string>, name: string): (r: Option<string>) {
    if lines == [] then None
    else if IsField(lines[|lines| - 1], name) then Some(FieldOf(lines[|lines| - 1]).value.value)
    else LastValue(lines[..|lines| - 1], name)
  }

  function RangeSpecs(lines: seq<string>): (r: seq<RangeSpec>) {
    if lines == [] then []
    else
      RangeSpecs(lines[..|lines| - 1]) +
      if IsField(lines[|lines| - 1], "Range") then [ParseRange(FieldOf(lines[|lines| - 1]).value.value)] else []
  }

  /** The values of all header lines called `name`, in order. */
  function ValuesOf(lines: seq<string>, name: string): (r: seq<string>) {
    if lines == [] then []
    else
      ValuesOf(lines[..|lines| - 1], name) +
      if IsField(lines[|lines| - 1], name) then [FieldOf(lines[|lines| - 1]).value.value] else []
  }

  lemma {:induction false} RangeSpecsOfValues(lines: seq<string>)
    ensures var values := ValuesOf(lines, "Range");
            && |RangeSpecs(lines)| == |values|
            && forall i :: 0 <= i < |values| ==> RangeSpecs(lines)[i] == ParseRange(values[i])
    decreases |lines|
  {
    if lines != [] {
      RangeSpecsOfValues(lines[..|lines| - 1]);
    }
  }

  lemma OneName(line: string)
    ensures !(IsField(line, "Connection") && IsField(line, "Range"))
  {
    if IsField(line, "Connection") {
      assert |FieldOf(line).value.name| == |"Connection"| == 10;
    }
  }

  /** The last Connection line decides, and the Range lines act in order. */
  lemma {:induction false} HeadersMean(lines: seq<string>)
    ensures var h := ApplyLines(NO_HEADERS, lines);
            && h.range == ApplyAll(NO_RANGE, RangeSpecs(lines))
            && h.connection == match LastValue(lines, "Connection")
                               case None => ""
                               case Some(v) => CopyBounded(v, CONNECTION_TEXT_MAX)
    decreases |lines|
  {
    if lines != [] {
      var init, last := lines[..|lines| - 1], lines[|lines| - 1];
      HeadersMean(init);
      OneName(last);
      if IsField(last, "Range") {
        var specs := RangeSpecs(lines);
        assert specs[..|specs| - 1] == RangeSpecs(init);
      } else {
        assert RangeSpecs(lines) == RangeSpecs(init);
      }
    }
  }

  /** The stored text is the last value, up to a NUL and at most 31 characters of it. */
  lemma ConnectionIsCut(lines: seq<string>)
    ensures var connection := ApplyLines(NO_HEADERS, lines).connection;
            match LastValue(lines, "Connection")
            case None => connection == ""
            case Some(v) => IsCut(connection, v, 31)
  {
    HeadersMean(lines);
    if LastValue(lines, "Connection").Some? {
      CopyIsCut(LastValue(lines, "Connection").value, CONNECTION_TEXT_MAX);
    }
  }

  lemma {:induction false} ApplyLinesSplit(h: Headers, first: string, rest: seq<string>)
    ensures ApplyLines(h, [first] + rest) == ApplyLines(ApplyLine(h, first), rest)
    decreases |rest|
  {
    var lines := [first] + rest;
    if rest == [] {
      assert lines[..0] == [];
    } else {
      ApplyLinesSplit(h, first, rest[..|rest| - 1]);
      assert lines[..|lines| - 1] == [first] + rest[..|rest| - 1];
    }
  }

  lemma ScanOneLine(h: Headers, s: string, line: string, rest: string, h': Headers)
    requires 0 < FirstCrlf(s) < |s| && line == s[..FirstCrlf(s)] && rest == s[FirstCrlf(s) + 2..]
    requires h' == ApplyLine(h, line)
    ensures ApplyLines(h, HeaderLines(s)) == ApplyLines(h', HeaderLines(rest))
  {
    ApplyLinesSplit(h, line, HeaderLines(rest));
  }

  /** Section 9.3 of RFC 9112, with the Connection value taken as one option. */
  function Persists(version: Version, connection: string): (r: bool) {
    if version == Http11 then !EqualIgnoringCase(connection, "close")
    else EqualIgnoringCase(connection, "keep-alive")
  }

  // --- the request line ---------------------------------------------------------------------------------

  /** The three parts of a request line; the version is everything after the second space. */
  datatype Parts = Parts(verb: string, target: string, version: string)

  function Split(line: string): (r: Option<Parts>) {
    var first := IndexOf(line, ' ');
    if first == |line| then None
    else
      var rest := line[first + 1..];
      var second := IndexOf(rest, ' ');
      if second == |rest| then None else Some(Parts(line[..first], rest[..second], rest[second + 1..]))
  }

  function PathOf(target: string): (r: string) {
    target[..IndexOf(target, '?')]
  }

  /** The fields the request line fills. */
  datatype LineFields = LineFields(verb: Verb, path: string, version: Version)

  function ParseLine(line: string): (r: Option<LineFields>) {
    match Split(line)
    case None => None
    case Some(p) =>
      var version := VersionOf(CopyBounded(p.version, VERSION_TEXT_MAX));
      if p.verb == "" || p.version == "" || PathOf(p.target) == "" || version == Unknown then None
      else Some(LineFields(VerbOf(CopyBounded(p.verb, METHOD_TEXT_MAX)), CopyBounded(PathOf(p.target), PATH_MAX),
        version))
  }

  function Complete(f: LineFields, h: Headers): (r: Request) {
    Request(f.verb, f.path, f.version, Persists(f.version, h.connection), h.range)
  }

  ghost function ParseRequest(block: string): (r: Option<Request>) {
    var k := FirstCrlf(block);
    if k == |block| || ParseLine(block[..k]) == None then None
    else Some(Complete(ParseLine(block[..k]).value, ApplyLines(NO_HEADERS, HeaderLines(block[k + 2..]))))
  }

  /** The request lines the server takes: section 3 of RFC 9112, with any method and target that have no
      space, a target that does not start with its query, and one of two versions. A NUL ends the version. */
  ghost predicate IsRequestLine(line: string, p: Parts) {
    && line == p.verb + " " + p.target + " " + p.version
    && p.verb != "" && ' ' !in p.verb
    && p.target != "" && ' ' !in p.target && p.target[0] != '?'
    && CString(p.version) in {"HTTP/1.0", "HTTP/1.1"}
  }

  lemma FirstWord(word: string, rest: string)
    requires ' ' !in word
    ensures var line := word + " " + rest;
            IndexOf(line, ' ') == |word| && line[..|word|] == word && line[|word| + 1..] == rest
  {
    var line := word + " " + rest;
    assert line[|word|] == ' ' && forall j :: 0 <= j < |word| ==> line[j] == word[j];
  }

  lemma SplitUnique(p: Parts)
    requires ' ' !in p.verb && ' ' !in p.target
    ensures Split(p.verb + " " + p.target + " " + p.version) == Some(p)
  {
    var rest := p.target + " " + p.version;
    FirstWord(p.verb, rest);
    FirstWord(p.target, p.version);
    Assoc(p.verb + " ", p.target, " ");
    Assoc(p.verb + " ", p.target + " ", p.version);
    assert p.verb + " " + p.target + " " + p.version == p.verb + " " + rest;
  }

  lemma SplitJoins(line: string)
    requires Split(line).Some?
    ensures var p := Split(line).value;
            line == p.verb + " " + p.target + " " + p.version && ' ' !in p.verb && ' ' !in p.target
  {
    var first := IndexOf(line, ' ');
    var rest := line[first + 1..];
    var second := IndexOf(rest, ' ');
    CutAt(line, first);
    CutAt(rest, second);
    Assoc(line[..first] + " ", rest[..second], " ");
    Assoc(line[..first] + " ", rest[..second] + " ", rest[second + 1..]);
  }

  /** Cutting the version text to fifteen characters cannot make a good version of a bad one. */
  lemma VersionCopy(v: string)
    ensures VersionOf(CopyBounded(v, VERSION_TEXT_MAX)) == VersionOf(CString(v))
  {
    if |v| >= VERSION_TEXT_MAX {
      var cut := v[..VERSION_TEXT_MAX - 1];
      if IndexOf(v, NUL) < |cut| {
        assert forall j :: 0 <= j < |cut| ==> cut[j] == v[j];
        assert IndexOf(cut, NUL) == IndexOf(v, NUL);
        assert CString(cut) == CString(v);
      } else {
        assert |CString(v)| > 8;
        assert IndexOf(cut, NUL) == |cut|;
      }
    }
  }

  /** A request line gives these fields. */
  lemma RequestLineFields(line: string, p: Parts)
    requires IsRequestLine(line, p)
    ensures ParseLine(line) == Some(LineFields(VerbOf(CopyBounded(p.verb, METHOD_TEXT_MAX)),
                                               CopyBounded(PathOf(p.target), PATH_MAX), VersionOf(CString(p.version))))
  {
    SplitUnique(p);
    VersionCopy(p.version);
  }

  lemma VerbCopy(text: string, word: string)
    requires word == "GET" || word == "HEAD"
    ensures CopyBounded(text, METHOD_TEXT_MAX) == word <==> CString(text) == word
  {
    if |text| >= METHOD_TEXT_MAX {
      var cut := text[..METHOD_TEXT_MAX - 1];
      if IndexOf(text, NUL) < |cut| {
        assert forall j :: 0 <= j < |cut| ==> cut[j] == text[j];
        assert IndexOf(cut, NUL) == IndexOf(text, NUL);
        assert CString(cut) == CString(text);
      } else {
        assert |CString(text)| > 4;
        assert IndexOf(cut, NUL) == |cut|;
      }
    }
  }

  /** What the fields of a request line say, word by word: GET and HEAD are known, and the two versions; a path is the
      target up to its query, and at most 1023 characters of it are kept. */
  lemma LineSays(line: string)
    requires ParseLine(line).Some?
    ensures var f, p := ParseLine(line).value, Split(line).value;
            && (f.verb == Get <==> CString(p.verb) == "GET") && (f.verb == Head <==> CString(p.verb) == "HEAD")
            && (f.version == Http10 <==> CString(p.version) == "HTTP/1.0")
            && (f.version == Http11 <==> CString(p.version) == "HTTP/1.1")
            && IsCut(f.path, p.target[..IndexOf(p.target, '?')], 1023)
  {
    var p := Split(line).value;
    VerbCopy(p.verb, "GET");
    VerbCopy(p.verb, "HEAD");
    VersionCopy(p.version);
    CopyIsCut(PathOf(p.target), PATH_MAX);
  }

  lemma FieldsOfRequestLine(line: string)
    requires ParseLine(line).Some?
    ensures IsRequestLine(line, Split(line).value)
  {
    SplitJoins(line);
    VersionCopy(Split(line).value.version);
  }

  /** A block is accepted exactly if it has a first line and that is a request line. */
  lemma AcceptsExactlyRequestLines(block: string)
    ensures ParseRequest(block).Some?
       <==> FirstCrlf(block) < |block| && exists p :: IsRequestLine(block[..FirstCrlf(block)], p)
  {
    var line := block[..FirstCrlf(block)];
    if p :| IsRequestLine(line, p) {
      RequestLineFields(line, p);
    }
    if ParseLine(line).Some? {
      FieldsOfRequestLine(line);
    }
  }

  /** The cutting of the first line, src/http.c:232-257. */
  method SplitRequestLine(line: string) returns (ok: bool, verbPart: string, pathPart: string, versionPart: string)
    ensures ok <==> Split(line).Some? && Split(line).value.verb != "" && Split(line).value.version != ""
                    && PathOf(Split(line).value.target) != ""
    ensures ok ==> verbPart == Split(line).value.verb && versionPart == Split(line).value.version
    ensures ok ==> pathPart == PathOf(Split(line).value.target)
  {
    ok, verbPart, pathPart, versionPart := false, "", "", "";
    var first := IndexOf(line, ' ');
    if first == |line| {
      return;
    }
    var rest := line[first + 1..];
    var second := IndexOf(rest, ' ');
    if second == |rest| || second == 0 {
      return;
    }
    if first == 0 || second + 1 == |rest| {
      return;
    }
    var target := rest[..second];
    var pathLength := IndexOf(target, '?');
    if pathLength == 0 {
      return;
    }
    ok, verbPart, pathPart, versionPart := true, line[..first], target[..pathLength], rest[second + 1..];
  }

  // --- the parser in place ----------------------------------------------------------------------------------

  /** `http_request_t`. */
  class HttpRequest {
    var methodText: string
    var path: string
    var versionText: string
    var connection: string
    var verb: Verb
    var version: Version
    var keepAliveRequested: bool
    var hasRange: bool
    var rangeIsSuffix: bool
    var rangeEndProvided: bool
    var rangeStart: Size
    var rangeEnd: Size

    function Range(): (r: RangeFields)
      reads this
    {
      RangeFields(hasRange, rangeIsSuffix, rangeEndProvided, rangeStart, rangeEnd)
    }

    function View(): (r: Request)
      reads this
    {
      Request(verb, path, version, keepAliveRequested, Range())
    }

    constructor ()
      ensures fresh(this)
    {
      methodText, path, versionText, connection := "", "", "", "";
      verb, version, keepAliveRequested := Unsupported, Unknown, false;
      hasRange, rangeIsSuffix, rangeEndProvided, rangeStart, rangeEnd := false, false, false, 0, 0;
    }

    /** `parse_range_header` from the unit on, src/http.c:110-151. */
    method ParseRangeSpec(spec: string)
      requires spec != "" && ',' !in spec
      modifies this`hasRange, this`rangeIsSuffix, this`rangeEndProvided, this`rangeStart, this`rangeEnd
      ensures Range() == Apply(old(Range()), SpecOf(spec))
    {
      var dash := IndexOf(spec, '-');
      if dash == |spec| {
        return;
      }
      if dash == 0 {
        var ok, parsed := ParseSizeToken(spec[1..]);
        if ok && parsed != 0 {
          hasRange, rangeIsSuffix, rangeStart := true, true, parsed;
        }
        return;
      }
      var ok, parsed := ParseSizeToken(spec[..dash]);
      if !ok {
        return;
      }
      hasRange, rangeStart := true, parsed;
      if dash + 1 == |spec| {
        return;
      }
      ok, parsed := ParseSizeToken(spec[dash + 1..]);
      if ok {
        rangeEndProvided, rangeEnd := true, parsed;
      } else {
        hasRange := false;
      }
    }

    /** `parse_range_header`. */
    method ParseRangeHeader(value: string)
      modifies this`hasRange, this`rangeIsSuffix, this`rangeEndProvided, this`rangeStart, this`rangeEnd
      ensures Range() == Apply(old(Range()), ParseRange(value))
    {
      var end := TrimTrailingSpan(value);
      var start := SkipSpaces(value[..end]);
      var v := value[..end][start..];
      assert v == Trimmed(value);
      if |v| <= |UNIT| {
        return;
      }
      var unitMatches := AsciiCaseEqualBounded(v[..|UNIT|], UNIT);
      if unitMatches && ',' !in v[|UNIT|..] {
        ParseRangeSpec(v[|UNIT|..]);
      }
    }

    /** One line of the loop of `parse_headers`. */
    method ParseHeaderLine(line: string)
      modifies this`connection, this`hasRange, this`rangeIsSuffix, this`rangeEndProvided, this`rangeStart, this`rangeEnd
      ensures Headers(connection, Range()) == ApplyLine(old(Headers(connection, Range())), line)
    {
      var colon := IndexOf(line, ':');
      if colon < |line| {
        var tail := line[colon + 1..];
        var start := SkipSpaces(tail);
        var end := TrimTrailingSpan(tail[start..]);
        var value := tail[start..][..end];
        var isConnection := AsciiCaseEqualBounded(line[..colon], "Connection");
        var isRange := AsciiCaseEqualBounded(line[..colon], "Range");
        if isConnection {
          connection := CopyBounded(value, CONNECTION_TEXT_MAX);
        } else if isRange {
          ParseRangeHeader(value);
        }
      }
    }

    /** `parse_headers`: the lines up to the first empty one, each once and in order. */
    method ParseHeaders(headers: string)
      modifies this`connection, this`hasRange, this`rangeIsSuffix, this`rangeEndProvided, this`rangeStart, this`rangeEnd
      ensures Headers(connection, Range()) == ApplyLines(old(Headers(connection, Range())), HeaderLines(headers))
    {
      var offset := 0;
      ghost var h := Headers(connection, Range());
      ghost var goal := ApplyLines(h, HeaderLines(headers));
      assert headers[0..] == headers;
      while offset < |headers|
        invariant offset <= |headers| && h == Headers(connection, Range())
        invariant ApplyLines(h, HeaderLines(headers[offset..])) == goal
      {
        var found, at := FindCrlf(headers[offset..]);
        if !found || at == 0 {
          return;
        }
        var line := headers[offset..][..at];
        ParseHeaderLine(line);
        ghost var rest := headers[offset..][at + 2..];
        ScanOneLine(h, headers[offset..], line, rest, Headers(connection, Range()));
        h := Headers(connection, Range());
        offset := offset + at + 2;
        assert rest == headers[offset..];
      }
    }

    method DecideKeepAlive()
      requires NUL !in connection
      modifies this`keepAliveRequested
      ensures keepAliveRequested == Persists(version, connection)
    {
      if version == Http11 {
        var close := AsciiCaseEqual(connection, "close");
        keepAliveRequested := !close;
      } else {
        keepAliveRequested := AsciiCaseEqual(connection, "keep-alive");
      }
    }

    /** The first line, src/http.c:232-269. */
    method ParseRequestLine(line: string) returns (ok: bool)
      modifies this`methodText, this`path, this`versionText, this`verb, this`version
      ensures ok <==> ParseLine(line).Some?
      ensures ok ==> var f := ParseLine(line).value; verb == f.verb && path == f.path && version == f.version
    {
      var verbPart, pathPart, versionPart;
      ok, verbPart, pathPart, versionPart := SplitRequestLine(line);
      if !ok {
        return;
      }
      methodText := CopyBounded(verbPart, METHOD_TEXT_MAX);
      path := CopyBounded(pathPart, PATH_MAX);
      versionText := CopyBounded(versionPart, VERSION_TEXT_MAX);
      verb := VerbOf(methodText);
      version := VersionOf(versionText);
      ok := version != Unknown;
    }

    method Clear()
      modifies this
      ensures Headers(connection, Range()) == NO_HEADERS
    {
      methodText, path, versionText, connection := "", "", "", "";
      verb, version, keepAliveRequested := Unsupported, Unknown, false;
      hasRange, rangeIsSuffix, rangeEndProvided, rangeStart, rangeEnd := false, false, false, 0, 0;
    }

    /** The rest of a block whose first line was good, src/http.c:272-281. */
    method ParseRest(headers: string)
      requires Headers(connection, Range()) == NO_HEADERS
      modifies this`connection, this`hasRange, this`rangeIsSuffix, this`rangeEndProvided, this`rangeStart,
               this`rangeEnd, this`keepAliveRequested
      ensures View() == Complete(LineFields(verb, path, version), ApplyLines(NO_HEADERS, HeaderLines(headers)))
    {
      ParseHeaders(headers);
      ghost var h := ApplyLines(NO_HEADERS, HeaderLines(headers));
      HeadersMean(HeaderLines(headers));
      assert connection == h.connection && Range() == h.range;
      DecideKeepAlive();
    }

    /** A block from its first CRLF at `lineEnd` on. */
    method ParseLines(raw: string, lineEnd: nat) returns (ok: bool)
      requires lineEnd == FirstCrlf(raw) < |raw| && Headers(connection, Range()) == NO_HEADERS
      modifies this
      ensures ok <==> ParseRequest(raw).Some?
      ensures ok ==> View() == ParseRequest(raw).value
    {
      var line, headers := raw[..lineEnd], raw[lineEnd + 2..];
      ok := ParseRequestLine(line);
      if ok {
        ghost var f := LineFields(verb, path, version);
        ParseRest(headers);
        assert ParseRequest(raw) == Some(Complete(f, ApplyLines(NO_HEADERS, HeaderLines(headers))));
      }
    }

    /** `http_parse_request`. */
    method Parse(raw: string) returns (ok: bool)
      modifies this
      ensures ok <==> ParseRequest(raw).Some?
      ensures ok ==> View() == ParseRequest(raw).value
    {
      if |raw| == 0 {
        return false;
      }
      Clear();
      var found, lineEnd := FindCrlf(raw);
      if !found {
        return false;
      }
      ok := ParseLines(raw, lineEnd);
    }
  }
}
