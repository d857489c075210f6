/** Canonical requests, and what the parser makes of them. */
module HttpPrinter {
  import opened Prelude
  import opened Text
  import opened Ranges
  import opened HttpParser

  // --- lines --------------------------------------------------------------------------------------

  function JoinLines(lines: seq<string>): (r: string) {
    if lines == [] then "" else lines[0] + CRLF + JoinLines(lines[1..])
  }

  ghost predicate IsLine(line: string) {
    line != "" && CrlfFree(line)
  }

  lemma CutLine(line: string, rest: string)
    ensures (line + CRLF + rest)[..|line|] == line && (line + CRLF + rest)[|line| + 2..] == rest
  {
    Cut(line + CRLF, rest);
    Cut(line, CRLF);
  }

  /** Splitting undoes joining: the empty line ends the header section whatever follows it. */
  lemma {:induction false} HeaderLinesOfJoined(lines: seq<string>, tail: string)
    requires forall i :: 0 <= i < |lines| ==> IsLine(lines[i])
    ensures HeaderLines(JoinLines(lines) + CRLF + tail) == lines
    decreases |lines|
  {
    var s := JoinLines(lines) + CRLF + tail;
    if lines == [] {
      LineEnd("", tail);
      assert s == "" + CRLF + tail;
    } else {
      var rest := JoinLines(lines[1..]) + CRLF + tail;
      HeaderLinesOfJoined(lines[1..], tail);
      LineEnd(lines[0], rest);
      Assoc(lines[0] + CRLF, JoinLines(lines[1..]), CRLF);
      Assoc(lines[0] + CRLF, JoinLines(lines[1..]) + CRLF, tail);
      CutLine(lines[0], rest);
      assert s == lines[0] + CRLF + rest;
    }
  }

  // --- requests -------------------------------------------------------------------------------------

  /** A header field that survives trimming and splitting. */
  predicate IsCanonical(f: Field) {
    ':' !in f.name && '\r' !in f.name && '\r' !in f.value && TrimEnd(SkipBlanks(f.value)) == f.value
  }

  function FieldLine(f: Field): (r: string) {
    f.name + ": " + f.value
  }

  function FieldLines(fs: seq<Field>): (r: seq<string>) {
    if fs == [] then [] else FieldLines(fs[..|fs| - 1]) + [FieldLine(fs[|fs| - 1])]
  }

  /** The value of the last field called `name`. */
  function LastField(fs: seq<Field>, name: string): (r: Option<string>) {
    if fs == [] then None
    else if EqualIgnoringCase(fs[|fs| - 1].name, name) then Some(fs[|fs| - 1].value)
    else LastField(fs[..|fs| - 1], name)
  }

  function RangesIn(fs: seq<Field>): (r: seq<RangeSpec>) {
    if fs == [] then []
    else
      RangesIn(fs[..|fs| - 1]) +
      if EqualIgnoringCase(fs[|fs| - 1].name, "Range") then [ParseRange(fs[|fs| - 1].value)] else []
  }

  lemma FieldOfLine(f: Field)
    requires IsCanonical(f)
    ensures FieldOf(FieldLine(f)) == Some(f) && IsLine(FieldLine(f))
  {
    var line := FieldLine(f);
    assert IndexOf(line, ':') == |f.name| by {
      assert line[|f.name|] == ':' && forall j :: 0 <= j < |f.name| ==> line[j] == f.name[j];
    }
    assert line[..|f.name|] == f.name && line[|f.name| + 1..] == " " + f.value;
    assert (" " + f.value)[1..] == f.value;
    forall i | 0 <= i < |line|
      ensures line[i] != '\r'
    {
      assert i >= |f.name| + 2 ==> line[i] == f.value[i - |f.name| - 2];
    }
  }

  /** White space around a value, of any length, is not part of it. */
  lemma PaddedFieldOfLine(f: Field, lead: string, trail: string)
    requires IsCanonical(f) && IsOws(lead) && IsTail(trail)
    ensures FieldOf(f.name + ":" + (lead + (f.value + trail))) == Some(f)
  {
    var line, rest := f.name + ":" + (lead + (f.value + trail)), lead + (f.value + trail);
    assert IndexOf(line, ':') == |f.name| by {
      assert line[|f.name|] == ':' && forall j :: 0 <= j < |f.name| ==> line[j] == f.name[j];
    }
    assert line[..|f.name|] == f.name && line[|f.name| + 1..] == rest;
    TrimmedPadding(f.value, lead, trail);
  }

  lemma TrimmedPadding(value: string, lead: string, trail: string)
    requires TrimEnd(SkipBlanks(value)) == value && IsOws(lead) && IsTail(trail)
    ensures TrimEnd(SkipBlanks(lead + (value + trail))) == value
  {
    if value == "" {
      assert value + trail == trail;
      SkipBlanksCuts(lead + trail);
      AllTrimmed(SkipBlanks(lead + trail));
    } else {
      EndsAreKept(value);
      assert (value + trail)[0] == value[0];
      SkipBlanksDrops(lead, value + trail);
      TrimEndDrops(value, trail);
    }
  }

  lemma {:induction false} AllTrimmed(s: string)
    requires IsTail(s)
    ensures TrimEnd(s) == ""
    decreases |s|
  {
    if s != "" {
      AllTrimmed(s[..|s| - 1]);
    }
  }

  lemma EndsAreKept(value: string)
    requires value != "" && TrimEnd(SkipBlanks(value)) == value
    ensures !IsBlank(value[0]) && !IsTrailing(value[|value| - 1])
  {
    SkipBlanksCuts(value);
    TrimEndCuts(SkipBlanks(value));
    if IsBlank(value[0]) {
      SkipBlanksCuts(value[1..]);
    } else if IsTrailing(value[|value| - 1]) {
      TrimEndCuts(value[..|value| - 1]);
    }
  }

  /** The values of the fields called `name`, in order. */
  function FieldValues(fs: seq<Field>, name: string): (r: seq<string>) {
    if fs == [] then []
    else
      FieldValues(fs[..|fs| - 1], name) +
      if EqualIgnoringCase(fs[|fs| - 1].name, name) then [fs[|fs| - 1].value] else []
  }

  lemma {:induction false} ValuesOfFieldLines(fs: seq<Field>, name: string)
    requires forall i :: 0 <= i < |fs| ==> IsCanonical(fs[i])
    ensures ValuesOf(FieldLines(fs), name) == FieldValues(fs, name)
    decreases |fs|
  {
    if fs != [] {
      ValuesOfFieldLines(fs[..|fs| - 1], name);
      FieldOfLine(fs[|fs| - 1]);
      var lines := FieldLines(fs);
      assert lines[..|lines| - 1] == FieldLines(fs[..|fs| - 1]);
    }
  }

  lemma {:induction false} FieldsOfLines(fs: seq<Field>, name: string)
    requires forall i :: 0 <= i < |fs| ==> IsCanonical(fs[i])
    ensures var lines := FieldLines(fs);
            && (forall i :: 0 <= i < |lines| ==> IsLine(lines[i]))
            && LastValue(lines, name) == LastField(fs, name)
            && RangeSpecs(lines) == RangesIn(fs)
    decreases |fs|
  {
    if fs != [] {
      FieldsOfLines(fs[..|fs| - 1], name);
      FieldOfLine(fs[|fs| - 1]);
      var lines := FieldLines(fs);
      assert lines[..|lines| - 1] == FieldLines(fs[..|fs| - 1]);
    }
  }

  function VersionText(v: Version): (r: string)
    requires v != Unknown
  {
    if v == Http10 then "HTTP/1.0" else "HTTP/1.1"
  }

  /** A request as a client writes it. */
  datatype Canonical = Canonical(
    verb: string, path: string, query: Option<string>, version: Version, fields: seq<Field>)
  {
    /** Within the field limits of include/http.h, and printable without ambiguity. */
    ghost predicate Valid() {
      && 0 < |verb| < METHOD_TEXT_MAX && ' ' !in verb && '\r' !in verb && NUL !in verb
      && 0 < |path| < PATH_MAX && ' ' !in path && '\r' !in path && NUL !in path && '?' !in path
      && (query.Some? ==> ' ' !in query.value && '\r' !in query.value)
      && version != Unknown
      && forall i :: 0 <= i < |fields| ==> IsCanonical(fields[i])
    }

    function Target(): (r: string) {
      path + if query.Some? then "?" + query.value else ""
    }

    function Line(): (r: string)
      requires version != Unknown
    {
      verb + " " + Target() + " " + VersionText(version)
    }

    function Print(): (r: string)
      requires version != Unknown
    {
      Line() + CRLF + (JoinLines(FieldLines(fields)) + CRLF)
    }
  }

  lemma VersionTextReadsBack(v: Version)
    requires v != Unknown
    ensures VersionOf(CString(VersionText(v))) == v && CString(VersionText(v)) in {"HTTP/1.0", "HTTP/1.1"}
    ensures '\r' !in VersionText(v)
  {
    assert forall i :: 0 <= i < 8 ==> VersionText(v)[i] != NUL && VersionText(v)[i] != '\r';
    assert IndexOf(VersionText(v), NUL) == 8;
    assert CString(VersionText(v)) == VersionText(v);
  }

  lemma PathOfTarget(c: Canonical)
    requires c.Valid()
    ensures PathOf(c.Target()) == c.path && ' ' !in c.Target() && '\r' !in c.Target()
  {
    var t := c.Target();
    assert forall j :: 0 <= j < |c.path| ==> t[j] == c.path[j];
    assert c.query.Some? ==> t[|c.path|] == '?';
    assert IndexOf(t, '?') == |c.path|;
    assert t[..|c.path|] == c.path;
  }

  lemma LineOfCanonical(c: Canonical)
    requires c.Valid()
    ensures '\r' !in c.Line() && c.Line() != ""
    ensures IsRequestLine(c.Line(), Parts(c.verb, c.Target(), VersionText(c.version)))
  {
    VersionTextReadsBack(c.version);
    PathOfTarget(c);
    assert c.Target()[0] == c.path[0];
  }

  lemma CanonicalLine(c: Canonical)
    requires c.Valid()
    ensures ParseLine(c.Line()) == Some(LineFields(VerbOf(c.verb), c.path, c.version))
    ensures CrlfFree(c.Line())
  {
    LineOfCanonical(c);
    RequestLineFields(c.Line(), Parts(c.verb, c.Target(), VersionText(c.version)));
    PathOfTarget(c);
    VersionTextReadsBack(c.version);
    CopyFits(c.verb, METHOD_TEXT_MAX);
    CopyFits(c.path, PATH_MAX);
    NoCrNoCrlf(c.Line());
  }

  lemma NoCrNoCrlf(s: string)
    requires '\r' !in s
    ensures CrlfFree(s)
  {
  }

  /** Parsing undoes printing: the method, the path without the query and the version come back, the last
      Connection field decides persistence, and the Range fields act in order. */
  lemma CanonicalRoundTrip(c: Canonical)
    requires c.Valid()
    ensures var connection := match LastField(c.fields, "Connection")
                              case None => ""
                              case Some(v) => CopyBounded(v, CONNECTION_TEXT_MAX);
            ParseRequest(c.Print()) == Some(Request(VerbOf(c.verb), c.path, c.version, Persists(c.version, connection),
                                                    ApplyAll(NO_RANGE, RangesIn(c.fields))))
  {
    var block, line, lines := c.Print(), c.Line(), FieldLines(c.fields);
    var headers := JoinLines(lines) + CRLF;
    CanonicalLine(c);
    LineEnd(line, headers);
    CutLine(line, headers);
    FieldsOfLines(c.fields, "Connection");
    HeaderLinesOfJoined(lines, "");
    assert headers == JoinLines(lines) + CRLF + "";
    HeadersMean(lines);
  }
}
