/** The responses of src/server.c: their text, and a reader that follows section 6.3 of RFC 9112. */
module Responses {
  import opened Prelude
  import opened Text
  import opened Numerals
  import opened HttpParser
  import opened HttpPrinter
  import opened Framing

  const RESPONSE_BUFFER_SIZE: nat := 8192

  /** `http_status_text`, src/http.c:290-313. */
  function StatusText(status: nat): (r: string) {
    match status
    case 200 => "OK"
    case 206 => "Partial Content"
    case 400 => "Bad Request"
    case 403 => "Forbidden"
    case 404 => "Not Found"
    case 416 => "Range Not Satisfiable"
    case 500 => "Internal Server Error"
    case 501 => "Not Implemented"
    case 503 => "Service Unavailable"
    case _ => "Unknown"
  }

  /** A media type as `file_mime_type` returns them. */
  predicate IsMime(s: string) {
    |s| <= 128 && '\r' !in s && TrimEnd(SkipBlanks(s)) == s
  }

  type Mime = s: string | IsMime(s) witness ""

  function ConnectionText(keepAlive: bool): (r: string) {
    if keepAlive then "keep-alive" else "close"
  }

  /** A field a response may carry beside the three that all have. */
  predicate IsExtra(f: Field) {
    && IsCanonical(f) && |f.name| <= 20 && |f.value| <= 80
    && !EqualIgnoringCase(f.name, "Content-Length") && !EqualIgnoringCase(f.name, "Connection")
  }

  /** The header block of a response; `length` is what Content-Length says. */
  datatype ResponseHead = ResponseHead(
    http10: bool, status: nat, contentType: Mime, length: Size, extra: seq<Field>, keepAlive: bool)
  {
    ghost predicate Valid() {
      && 200 <= status <= 999 && status != 204 && status != 304
      && |extra| <= 2
      && forall i :: 0 <= i < |extra| ==> IsExtra(extra[i])
    }

    function StatusLine(): (r: string) {
      (if http10 then "HTTP/1.0" else "HTTP/1.1") + " " + (PrintSize(status) + (" " + StatusText(status)))
    }

    function Fields(): (r: seq<Field>) {
      [Field("Content-Type", contentType), Field("Content-Length", PrintSize(length))] + extra
      + [Field("Connection", ConnectionText(keepAlive))]
    }

    function Print(): (r: string) {
      StatusLine() + CRLF + (JoinLines(FieldLines(Fields())) + CRLF)
    }
  }

  // --- the header block, read back ----------------------------------------------------------------------

  predicate IsPlainLine(line: string) {
    line != "" && '\r' !in line
  }

  lemma BlankLineShiftRight(pre: string, rest: string, j: nat)
    requires |pre| <= j
    ensures BlankLineAt(pre + rest, j) == BlankLineAt(rest, j - |pre|)
  {
  }

  /** Where the first blank line is, seen from one line earlier. */
  lemma BlankLineBeyond(line: string, rest: string)
    requires '\r' !in line && rest != ""
    ensures FirstBlankLine(line + CRLF + rest) == if CrlfAt(rest, 0) then |line| else |line| + 2 + FirstBlankLine(rest)
  {
    var s, b := line + CRLF + rest, if CrlfAt(rest, 0) then |line| else |line| + 2 + FirstBlankLine(rest);
    forall j | 0 <= j < b
      ensures !BlankLineAt(s, j)
    {
      if j < |line| {
        assert s[j] == line[j];
      } else if j > |line| + 1 {
        BlankLineShiftRight(line + CRLF, rest, j);
      }
    }
    if b > |line| && b < |s| {
      BlankLineShiftRight(line + CRLF, rest, b);
    }
    FirstBlankLineIs(s, b);
  }

  /** A header section has its first blank line at its end. */
  lemma {:induction false} BlankLineAfterLines(lines: seq<string>, tail: string)
    requires lines != [] && forall i :: 0 <= i < |lines| ==> IsPlainLine(lines[i])
    ensures FirstBlankLine(JoinLines(lines) + CRLF + tail) + 2 == |JoinLines(lines)|
    decreases |lines|
  {
    var rest := JoinLines(lines[1..]) + CRLF + tail;
    Assoc(lines[0] + CRLF, JoinLines(lines[1..]), CRLF);
    Assoc(lines[0] + CRLF, JoinLines(lines[1..]) + CRLF, tail);
    assert JoinLines(lines) + CRLF + tail == lines[0] + CRLF + rest;
    BlankLineBeyond(lines[0], rest);
    if |lines| > 1 {
      BlankLineAfterLines(lines[1..], tail);
      assert rest[0] == lines[1][0];
    } else {
      assert rest == CRLF + tail;
    }
  }

  lemma {:induction false} LastFieldSkips(fs: seq<Field>, gs: seq<Field>, name: string)
    requires forall i :: 0 <= i < |gs| ==> !EqualIgnoringCase(gs[i].name, name)
    ensures LastField(fs + gs, name) == LastField(fs, name)
    decreases |gs|
  {
    if gs == [] {
      assert fs + gs == fs;
    } else {
      LastFieldSkips(fs, gs[..|gs| - 1], name);
      assert (fs + gs)[..|fs + gs| - 1] == fs + gs[..|gs| - 1];
    }
  }

  lemma NumeralIsCanonical(n: nat)
    ensures '\r' !in PrintSize(n) && TrimEnd(SkipBlanks(PrintSize(n))) == PrintSize(n)
  {
    var s := PrintSize(n);
    assert IsDigit(s[0]) && IsDigit(s[|s| - 1]);
    assert forall i :: 0 <= i < |s| ==> IsDigit(s[i]);
  }

  lemma TokenIsCanonical(s: string)
    requires s != "" && '\r' !in s && !IsBlank(s[0]) && !IsTrailing(s[|s| - 1])
    ensures TrimEnd(SkipBlanks(s)) == s
  {
  }

  lemma ContentTypeIsCanonical(h: ResponseHead)
    ensures IsCanonical(Field("Content-Type", h.contentType))
  {
  }

  lemma ContentLengthIsCanonical(h: ResponseHead)
    ensures IsCanonical(Field("Content-Length", PrintSize(h.length)))
  {
    NumeralIsCanonical(h.length);
  }

  lemma ConnectionIsCanonical(h: ResponseHead)
    ensures IsCanonical(Field("Connection", ConnectionText(h.keepAlive)))
  {
    TokenIsCanonical(ConnectionText(h.keepAlive));
  }

  lemma FieldsAreCanonical(h: ResponseHead)
    requires h.Valid()
    ensures forall i :: 0 <= i < |h.Fields()| ==> IsCanonical(h.Fields()[i])
  {
    ContentTypeIsCanonical(h);
    ContentLengthIsCanonical(h);
    ConnectionIsCanonical(h);
    var fs := h.Fields();
    forall i | 0 <= i < |fs|
      ensures IsCanonical(fs[i])
    {
      assert 2 <= i < |fs| - 1 ==> fs[i] == h.extra[i - 2];
    }
  }

  lemma FieldsSay(h: ResponseHead)
    requires h.Valid()
    ensures LastField(h.Fields(), "Connection") == Some(ConnectionText(h.keepAlive))
    ensures LastField(h.Fields(), "Content-Length") == Some(PrintSize(h.length))
  {
    var fs := h.Fields();
    var two := [Field("Content-Type", h.contentType), Field("Content-Length", PrintSize(h.length))];
    var last := [Field("Connection", ConnectionText(h.keepAlive))];
    assert fs == two + h.extra + last && fs[|fs| - 1] == last[0];
    assert |"Connection"| == 10 && |"Content-Length"| == 14;
    LastFieldSkips(two + h.extra, last, "Content-Length");
    LastFieldSkips(two, h.extra, "Content-Length");
  }

  lemma LowStatusTextIsPlain(status: nat)
    requires status < 416
    ensures '\r' !in StatusText(status) && |StatusText(status)| <= 21
  {
  }

  lemma HighStatusTextIsPlain(status: nat)
    requires 416 <= status
    ensures '\r' !in StatusText(status) && |StatusText(status)| <= 21
  {
  }

  lemma StatusTextIsPlain(status: nat)
    ensures '\r' !in StatusText(status) && |StatusText(status)| <= 21
  {
    if status < 416 {
      LowStatusTextIsPlain(status);
    } else {
      HighStatusTextIsPlain(status);
    }
  }

  lemma StatusHasThreeDigits(status: nat)
    requires 100 <= status <= 999
    ensures |PrintSize(status)| == 3
  {
    assert Pow10(3) == 1000;
    PrintedLength(status, 3);
    assert |PrintSize(status / 10)| >= 2;
  }

  lemma StatusLineIsPlain(h: ResponseHead)
    requires h.Valid()
    ensures IsPlainLine(h.StatusLine()) && 12 <= |h.StatusLine()| <= 60
    ensures h.StatusLine()[9..12] == PrintSize(h.status)
  {
    NumeralIsCanonical(h.status);
    StatusHasThreeDigits(h.status);
    StatusTextIsPlain(h.status);
    var version := (if h.http10 then "HTTP/1.0" else "HTTP/1.1") + " ";
    var digits, text := PrintSize(h.status), " " + StatusText(h.status);
    assert |version| == 9 && '\r' !in version && '\r' !in text;
    Cut(version, digits + text);
    Cut(digits, text);
    assert (version + (digits + text))[9..12] == (version + (digits + text))[9..][..3];
  }

  lemma {:induction false} FieldLinesAt(fs: seq<Field>, i: nat)
    requires i < |fs|
    ensures |FieldLines(fs)| == |fs| && FieldLines(fs)[i] == FieldLine(fs[i])
    decreases |fs|
  {
    if i < |fs| - 1 {
      FieldLinesAt(fs[..|fs| - 1], i);
    } else if |fs| > 1 {
      FieldLinesAt(fs[..|fs| - 1], 0);
    }
  }

  lemma FieldLinesArePlain(fs: seq<Field>)
    requires forall i :: 0 <= i < |fs| ==> IsCanonical(fs[i])
    ensures |FieldLines(fs)| == |fs| && forall i :: 0 <= i < |fs| ==> IsPlainLine(FieldLines(fs)[i])
  {
    assert fs == [] ==> FieldLines(fs) == [];
    forall i | 0 <= i < |fs|
      ensures |FieldLines(fs)| == |fs| && IsPlainLine(FieldLines(fs)[i])
    {
      FieldLinesAt(fs, i);
    }
  }

  lemma BlockReadsBack(head: string, line: string, lines: seq<string>, tail: string)
    requires IsPlainLine(line) && lines != [] && forall i :: 0 <= i < |lines| ==> IsPlainLine(lines[i])
    requires head == line + CRLF + (JoinLines(lines) + CRLF)
    ensures FirstBlankLine(head + tail) + 4 == |head|
    ensures FirstCrlf(head + tail) == |line| && |line| + 2 <= |head + tail|
    ensures HeaderLines((head + tail)[|line| + 2..]) == lines
    ensures (head + tail)[..|line|] == line
  {
    var rest := JoinLines(lines) + CRLF + tail;
    Assoc(line + CRLF, JoinLines(lines) + CRLF, tail);
    BlankLineAfterLines(lines, tail);
    assert rest[0] == lines[0][0];
    BlankLineBeyond(line, rest);
    NoCrNoCrlf(line);
    LineEnd(line, rest);
    CutLine(line, rest);
    forall i | 0 <= i < |lines|
      ensures IsLine(lines[i])
    {
      NoCrNoCrlf(lines[i]);
    }
    HeaderLinesOfJoined(lines, tail);
  }

  /** The header lines of a message, as a reader splits them. */
  ghost function LinesOf(text: string): (r: seq<string>) {
    if FirstCrlf(text) + 2 <= |text| then HeaderLines(text[FirstCrlf(text) + 2..]) else []
  }

  lemma FieldsReadBack(head: string, line: string, fs: seq<Field>, tail: string)
    requires IsPlainLine(line) && |line| >= 12 && fs != [] && forall i :: 0 <= i < |fs| ==> IsCanonical(fs[i])
    requires head == line + CRLF + (JoinLines(FieldLines(fs)) + CRLF)
    ensures FirstBlankLine(head + tail) + 4 == |head|
    ensures LinesOf(head + tail) == FieldLines(fs)
    ensures |head| >= 12 && (head + tail)[9..12] == line[9..12]
  {
    FieldLinesArePlain(fs);
    BlockReadsBack(head, line, FieldLines(fs), tail);
    SliceOfPrefix(head + tail, |line|, 9, 12);
  }

  /** What a reader finds in a response: the end of the header block, the status, and the header lines. */
  lemma HeadReadsBack(h: ResponseHead, head: string, tail: string)
    requires h.Valid() && head == h.Print()
    ensures FirstBlankLine(head + tail) + 4 == |head|
    ensures LinesOf(head + tail) == FieldLines(h.Fields())
    ensures |head| >= 12 && (head + tail)[9..12] == PrintSize(h.status)
  {
    StatusLineIsPlain(h);
    FieldsAreCanonical(h);
    FieldsReadBack(head, h.StatusLine(), h.Fields(), tail);
  }

  lemma SliceOfPrefix(s: string, n: nat, i: nat, j: nat)
    requires i <= j <= n <= |s|
    ensures s[..n][i..j] == s[i..j]
  {
  }

  // --- the size of the header block -----------------------------------------------------------------------

  lemma {:induction false} JoinedLength(lines: seq<string>, m: nat)
    requires forall i :: 0 <= i < |lines| ==> |lines[i]| <= m
    ensures |JoinLines(lines)| <= |lines| * (m + 2)
    decreases |lines|
  {
    if lines != [] {
      JoinedLength(lines[1..], m);
      assert |lines| * (m + 2) == (m + 2) + (|lines| - 1) * (m + 2);
    }
  }

  lemma FieldsAreShort(h: ResponseHead)
    requires h.Valid()
    ensures |h.Fields()| <= 5
    ensures forall i :: 0 <= i < |h.Fields()| ==> |FieldLine(h.Fields()[i])| <= 160
  {
    SizeLength(h.length);
    var fs := h.Fields();
    forall i | 0 <= i < |fs|
      ensures |FieldLine(fs[i])| <= 160
    {
      assert 2 <= i < |fs| - 1 ==> fs[i] == h.extra[i - 2];
    }
  }

  lemma FieldLinesAreShort(h: ResponseHead)
    requires h.Valid()
    ensures |JoinLines(FieldLines(h.Fields()))| <= 810
  {
    FieldsAreShort(h);
    var fs := h.Fields();
    var lines := FieldLines(fs);
    assert fs[0].name == "Content-Type";
    FieldLinesAt(fs, 0);
    forall i | 0 <= i < |lines|
      ensures |lines[i]| <= 160
    {
      FieldLinesAt(fs, i);
    }
    JoinedLength(lines, 160);
  }

  /** The `snprintf` of every response fits its buffer, so none is dropped for its size. */
  lemma HeadFits(h: ResponseHead)
    requires h.Valid()
    ensures |h.Print()| < RESPONSE_BUFFER_SIZE
  {
    StatusLineIsPlain(h);
    FieldLinesAreShort(h);
  }
}
