/** When a connection should persist by section 9.3 of RFC 9112, and when the parser says so: src/http.c:179-182 and
    274-281 take the last Connection value as a whole. */
module Persistence {
  import opened Prelude
  import opened Text
  import opened Ranges
  import opened HttpParser
  import opened Framing

  // --- the standard -------------------------------------------------------------------------------------------

  /** A comma-separated list has an option, in any case and with white space around it. */
  predicate ListHas(list: string, option: string)
    decreases |list|
  {
    var comma := IndexOf(list, ',');
    || EqualIgnoringCase(Trimmed(list[..comma]), option)
    || (comma < |list| && ListHas(list[comma + 1..], option))
  }

  /** Section 7.6.1 of RFC 9110: the options of all Connection lines together. */
  predicate HasOption(lines: seq<string>, option: string) {
    exists value :: value in ValuesOf(lines, "Connection") && ListHas(value, option)
  }

  /** Section 9.3 of RFC 9112, for the two versions the server takes. */
  predicate ShouldPersist(version: Version, lines: seq<string>) {
    !HasOption(lines, "close") && (version == Http11 || HasOption(lines, "keep-alive"))
  }

  // --- the code -----------------------------------------------------------------------------------------------

  /** The last Connection value, up to a NUL, is just this option. */
  predicate LastIs(lines: seq<string>, option: string) {
    var last := LastValue(lines, "Connection");
    last.Some? && EqualIgnoringCase(CString(last.value), option)
  }

  /** Cutting the value to its field makes no option of a longer text. */
  lemma ConnectionCopy(value: string, option: string)
    requires |option| < CONNECTION_TEXT_MAX - 1
    ensures EqualIgnoringCase(CopyBounded(value, CONNECTION_TEXT_MAX), option)
       <==> EqualIgnoringCase(CString(value), option)
  {
    if |value| >= CONNECTION_TEXT_MAX {
      var cut := value[..CONNECTION_TEXT_MAX - 1];
      if IndexOf(value, NUL) < |cut| {
        assert forall j :: 0 <= j < |cut| ==> cut[j] == value[j];
        assert IndexOf(cut, NUL) == IndexOf(value, NUL);
        assert CString(cut) == CString(value);
      } else {
        assert |CString(value)| > |option|;
        assert IndexOf(cut, NUL) == |cut|;
      }
    }
  }

  lemma PersistsAsRead(version: Version, lines: seq<string>)
    ensures Persists(version, ApplyLines(NO_HEADERS, lines).connection)
       <==> if version == Http11 then !LastIs(lines, "close") else LastIs(lines, "keep-alive")
  {
    HeadersMean(lines);
    match LastValue(lines, "Connection")
    case None =>
    case Some(value) =>
      ConnectionCopy(value, "close");
      ConnectionCopy(value, "keep-alive");
  }

  // --- the one against the other --------------------------------------------------------------------------------

  /** Where the parser looks, it finds what counts: the last value is just the option that decides, exactly if the
      Connection lines together have it, and for HTTP/1.0 no "close" besides. */
  predicate LastDecides(version: Version, lines: seq<string>) {
    if version == Http11 then LastIs(lines, "close") <==> HasOption(lines, "close")
    else LastIs(lines, "keep-alive") <==> HasOption(lines, "keep-alive") && !HasOption(lines, "close")
  }

  /** A request persists as the standard has it exactly if the last Connection value decides alone. */
  lemma PersistsByStandardIff(f: LineFields, lines: seq<string>)
    requires f.version != Unknown
    ensures (Complete(f, ApplyLines(NO_HEADERS, lines)).keepAlive <==> ShouldPersist(f.version, lines))
       <==> LastDecides(f.version, lines)
  {
    PersistsAsRead(f.version, lines);
  }

  lemma {:induction false} ValuesAreTrimmed(lines: seq<string>)
    ensures forall value :: value in ValuesOf(lines, "Connection") ==> Trimmed(value) == value
    decreases |lines|
  {
    if lines != [] {
      ValuesAreTrimmed(lines[..|lines| - 1]);
      var last := lines[|lines| - 1];
      if IsField(last, "Connection") {
        TrimmedOnce(last[IndexOf(last, ':') + 1..]);
      }
    }
  }

  lemma TrimmedOnce(s: string)
    ensures Trimmed(TrimEnd(SkipBlanks(s))) == TrimEnd(SkipBlanks(s))
  {
    var t := SkipBlanks(s);
    var u := TrimEnd(t);
    StartsPlain(s);
    EndsPlain(t);
    TrimEndCuts(t);
    if u != "" {
      assert u[0] == t[..|u|][0];
      TrimmedCore("", u, "");
      assert "" + u + "" == u;
    }
  }

  lemma {:induction false} StartsPlain(s: string)
    ensures SkipBlanks(s) != "" ==> !IsBlank(SkipBlanks(s)[0])
    decreases |s|
  {
    if s != "" && IsBlank(s[0]) {
      StartsPlain(s[1..]);
    }
  }

  lemma {:induction false} EndsPlain(s: string)
    ensures TrimEnd(s) != "" ==> !IsTrailing(TrimEnd(s)[|TrimEnd(s)| - 1])
    decreases |s|
  {
    if s != "" && IsTrailing(s[|s| - 1]) {
      EndsPlain(s[..|s| - 1]);
    }
  }

  lemma {:induction false} LastOfValues(lines: seq<string>)
    ensures var values := ValuesOf(lines, "Connection");
            LastValue(lines, "Connection") == if values == [] then None else Some(values[|values| - 1])
    decreases |lines|
  {
    if lines != [] {
      LastOfValues(lines[..|lines| - 1]);
    }
  }

  /** The last value is an option only if the lines have it, where no NUL cuts it short. */
  lemma LastIsOption(lines: seq<string>, option: string)
    requires LastIs(lines, option) && NUL !in LastValue(lines, "Connection").value && ',' !in option
    ensures HasOption(lines, option)
  {
    LastOfValues(lines);
    ValuesAreTrimmed(lines);
    var value := LastValue(lines, "Connection").value;
    assert CString(value) == value;
    NoCommaInEqual(value, option);
    assert value[..IndexOf(value, ',')] == value;
    assert value in ValuesOf(lines, "Connection");
  }

  lemma NoCommaInEqual(value: string, option: string)
    requires EqualIgnoringCase(value, option) && ',' !in option
    ensures ',' !in value && IndexOf(value, ',') == |value|
  {
    forall i | 0 <= i < |value|
      ensures value[i] != ','
    {
      assert Lower(value[i]) == Lower(option[i]) && option[i] in option;
    }
  }

  /** Without NULs in the values, what goes wrong is only this: for HTTP/1.1, an option "close" that is not all of the
      last value; for HTTP/1.0, such a "keep-alive", or a "close" beside a last value of "keep-alive". */
  lemma WithoutNul(version: Version, lines: seq<string>)
    requires forall value :: value in ValuesOf(lines, "Connection") ==> NUL !in value
    ensures LastDecides(version, lines)
       <==> if version == Http11 then HasOption(lines, "close") ==> LastIs(lines, "close")
            else if LastIs(lines, "keep-alive") then !HasOption(lines, "close")
            else HasOption(lines, "keep-alive") ==> HasOption(lines, "close")
  {
    LastOfValues(lines);
    if LastIs(lines, "close") {
      LastIsOption(lines, "close");
    }
    if LastIs(lines, "keep-alive") {
      LastIsOption(lines, "keep-alive");
    }
  }

  lemma OneValue(lines: seq<string>, value: string, option: string)
    requires ValuesOf(lines, "Connection") == [value] && ',' !in value && NUL !in value
    ensures HasOption(lines, option) <==> EqualIgnoringCase(value, option)
    ensures LastIs(lines, option) <==> EqualIgnoringCase(value, option)
  {
    LastOfValues(lines);
    ValuesAreTrimmed(lines);
    assert value in [value] && forall v :: v in [value] ==> v == value;
    OneElement(value, option);
  }

  lemma OneElement(value: string, option: string)
    requires ',' !in value && NUL !in value && Trimmed(value) == value
    ensures ListHas(value, option) <==> EqualIgnoringCase(value, option)
    ensures CString(value) == value
  {
    assert IndexOf(value, ',') == |value| && value[..|value|] == value;
    assert IndexOf(value, NUL) == |value|;
  }

  /** So a request with at most one Connection line, of one option, always persists as the standard has it. */
  lemma OneOptionDecides(version: Version, lines: seq<string>)
    requires |ValuesOf(lines, "Connection")| <= 1
    requires forall value :: value in ValuesOf(lines, "Connection") ==> ',' !in value && NUL !in value
    ensures LastDecides(version, lines)
  {
    var values := ValuesOf(lines, "Connection");
    if values == [] {
      LastOfValues(lines);
    } else {
      assert values[0] in values && values == [values[0]];
      OneValue(lines, values[0], "close");
      OneValue(lines, values[0], "keep-alive");
      assert |"close"| == 5 && |"keep-alive"| == 10;
    }
  }

  // --- for requests -----------------------------------------------------------------------------------------------

  /** The header lines of the request at the front of the input. */
  ghost function LinesOfRequest(input: string): (lines: seq<string>) {
    var block := input[..BlockLength(input)];
    if FirstCrlf(block) + 2 <= |block| then HeaderLines(block[FirstCrlf(block) + 2..]) else []
  }

  lemma RequestPersistsIff(input: string, reset: bool)
    requires NextRequest(input, reset).Accepted?
    ensures var req, lines := NextRequest(input, reset).request, LinesOfRequest(input);
            (req.keepAlive <==> ShouldPersist(req.version, lines)) <==> LastDecides(req.version, lines)
  {
    var block := input[..BlockLength(input)];
    var f := ParseLine(block[..FirstCrlf(block)]).value;
    PersistsByStandardIff(f, LinesOfRequest(input));
  }
}
