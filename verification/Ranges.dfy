/** Byte ranges: the grammar `parse_range_header` of src/http.c accepts, the request fields it leaves
    behind, and the part of a file `resolve_range` of src/server.c selects from them. */
module Ranges {
  import opened Prelude
  import opened Text
  import opened Numerals

  /** What one Range value says. `Broken` has a good first position and a bad last one. */
  datatype RangeSpec =
    | Ignored
    | Broken(first: Size)
    | Suffix(count: Size)
    | From(first: Size)
    | FromTo(first: Size, last: Size)

  /** The five range fields of `http_request_t`. */
  datatype RangeFields = RangeFields(has: bool, isSuffix: bool, endProvided: bool, start: Size, end: Size)

  const NO_RANGE := RangeFields(false, false, false, 0, 0)
  const UNIT: string := "bytes="

  function Trimmed(value: string): (r: string) {
    SkipBlanks(TrimEnd(value))
  }

  predicate HasUnit(v: string) {
    |v| > |UNIT| && EqualIgnoringCase(v[..|UNIT|], UNIT) && ',' !in v[|UNIT|..]
  }

  /** The branches of `parse_range_header`, on the text after the unit. */
  function SpecOf(r: string): (result: RangeSpec) {
    var dash := IndexOf(r, '-');
    if dash == |r| then Ignored
    else if dash == 0 then
      if IsSize(r[1..]) && Value(r[1..]) > 0 then Suffix(Value(r[1..])) else Ignored
    else if !IsSize(r[..dash]) then Ignored
    else if dash + 1 == |r| then From(Value(r[..dash]))
    else if !IsSize(r[dash + 1..]) then Broken(Value(r[..dash]))
    else FromTo(Value(r[..dash]), Value(r[dash + 1..]))
  }

  function ParseRange(value: string): (r: RangeSpec) {
    var v := Trimmed(value);
    if HasUnit(v) then SpecOf(v[|UNIT|..]) else Ignored
  }

  // --- the standard -----------------------------------------------------------------------------------------

  /** What one range of section 14.1.2 of RFC 9110 asks for. Its numbers have no bound. */
  datatype Asked = LastBytes(n: nat) | Onwards(a: nat) | Between(a: nat, b: nat)

  /** The positions of an `n`-byte file it asks for. */
  predicate Selects(asked: Asked, n: nat, i: nat) {
    i < n &&
    match asked
    case LastBytes(k) => n - i <= k
    case Onwards(a) => a <= i
    case Between(a, b) => a <= i <= b
  }

  /** Section 14.1.2: a nonzero suffix is satisfiable, also of an empty file, of which it is the whole; any other range
      if it has a first position in the file. A range that ends before it starts is invalid, and section 14.2 lets a
      server refuse it in the same way. */
  predicate IsSatisfiable(asked: Asked, n: nat) {
    match asked
    case LastBytes(k) => k > 0
    case Onwards(a) => a < n
    case Between(a, b) => a <= b && a < n
  }

  lemma SatisfiableIff(asked: Asked, n: nat)
    ensures (exists i: nat :: Selects(asked, n, i)) <==> IsSatisfiable(asked, n) && n > 0
  {
    if IsSatisfiable(asked, n) && n > 0 {
      assert Selects(asked, n, if asked.LastBytes? then n - 1 else asked.a);
    }
  }

  predicate IsNumeral(t: string, n: nat) {
    t != "" && IsDigits(t) && Value(t) == n
  }

  /** `int-range` and `suffix-range`. */
  ghost predicate IsRange(r: string, asked: Asked) {
    match asked
    case LastBytes(n) => exists t :: IsNumeral(t, n) && r == "-" + t
    case Onwards(a) => exists t :: IsNumeral(t, a) && r == t + "-"
    case Between(a, b) => exists t, u :: IsNumeral(t, a) && IsNumeral(u, b) && r == t + "-" + u
  }

  /** Optional white space, section 5.6.3 of RFC 9110. */
  predicate IsOws(s: string) {
    forall i :: 0 <= i < |s| ==> s[i] == ' ' || s[i] == '\t'
  }

  /** White space behind a value, single line-end characters included. */
  predicate IsTail(s: string) {
    forall i :: 0 <= i < |s| ==> s[i] == ' ' || s[i] == '\t' || s[i] == '\r' || s[i] == '\n'
  }

  /** Empty list elements, which section 5.6.1 of RFC 9110 has a recipient ignore. */
  predicate IsPadding(s: string) {
    s == "" || (',' in s && forall i :: 0 <= i < |s| ==> s[i] == ',' || s[i] == ' ' || s[i] == '\t')
  }

  /** A Range value in its parts: white space, the unit in any case, a list of one range, white space. */
  ghost predicate IsRangeValue(
    value: string, lead: string, unit: string, pre: string, r: string, post: string, trail: string, asked: Asked)
  {
    && value == lead + (unit + (pre + r + post)) + trail
    && IsOws(lead) && IsTail(trail)
    && EqualIgnoringCase(unit, "bytes=") && IsPadding(pre) && IsRange(r, asked) && IsPadding(post)
  }

  /** A Range value that asks for one range in bytes. */
  ghost predicate Requests(value: string, asked: Asked) {
    exists lead, unit, pre, r, post, trail :: IsRangeValue(value, lead, unit, pre, r, post, trail, asked)
  }

  /** The range a spec stands for, if it is one. */
  function Wanted(spec: RangeSpec): (r: Option<Asked>) {
    match spec
    case Suffix(n) => Some(LastBytes(n))
    case From(a) => Some(Onwards(a))
    case FromTo(a, b) => Some(Between(a, b))
    case _ => None
  }

  /** The ranges the server understands: every number is a `size_t`, and a suffix is not empty. */
  predicate IsUnderstood(asked: Asked) {
    match asked
    case LastBytes(n) => 0 < n <= SIZE_MAX
    case Onwards(a) => a <= SIZE_MAX
    case Between(a, b) => a <= SIZE_MAX && b <= SIZE_MAX
  }

  lemma DigitsHaveNoDash(t: string, rest: string)
    requires IsDigits(t)
    ensures IndexOf(t + "-" + rest, '-') == |t|
  {
    var r := t + "-" + rest;
    assert r[|t|] == '-' && forall j :: 0 <= j < |t| ==> r[j] == t[j];
  }

  /** A range is read as what it asks for, or as nothing if it is not understood. */
  lemma RangeIsRead(r: string, asked: Asked)
    requires IsRange(r, asked)
    ensures Wanted(SpecOf(r)) == if IsUnderstood(asked) then Some(asked) else None
  {
    match asked
    case LastBytes(n) =>
      var t :| IsNumeral(t, n) && r == "-" + t;
      DigitsHaveNoDash("", t);
      assert r == "" + "-" + t && r[1..] == t;
    case Onwards(a) =>
      var t :| IsNumeral(t, a) && r == t + "-";
      DigitsHaveNoDash(t, "");
      assert r == t + "-" + "" && r[..|t|] == t;
    case Between(a, b) =>
      var t, u :| IsNumeral(t, a) && IsNumeral(u, b) && r == t + "-" + u;
      DigitsHaveNoDash(t, u);
      assert r[..|t|] == t && r[|t| + 1..] == u;
  }

  lemma RangeEnds(r: string, asked: Asked)
    requires IsRange(r, asked)
    ensures r != "" && ',' !in r && !IsTrailing(r[|r| - 1])
  {
    match asked
    case LastBytes(n) => var t :| IsNumeral(t, n) && r == "-" + t;
    case Onwards(a) => var t :| IsNumeral(t, a) && r == t + "-";
    case Between(a, b) =>
      var t, u :| IsNumeral(t, a) && IsNumeral(u, b) && r == t + "-" + u;
      assert r[|r| - 1] == u[|u| - 1];
  }

  /** What is read is a range of the grammar. */
  lemma ReadIsRange(r: string)
    requires Wanted(SpecOf(r)).Some?
    ensures IsRange(r, Wanted(SpecOf(r)).value) && IsUnderstood(Wanted(SpecOf(r)).value)
  {
    var dash := IndexOf(r, '-');
    assert r == r[..dash] + "-" + r[dash + 1..];
    if dash == 0 {
      assert r == "-" + r[1..] && IsNumeral(r[1..], Value(r[1..]));
    } else {
      assert IsNumeral(r[..dash], Value(r[..dash]));
      if dash + 1 == |r| {
        assert r == r[..dash] + "-";
      } else {
        assert IsNumeral(r[dash + 1..], Value(r[dash + 1..]));
      }
    }
  }

  lemma {:induction false} TrimEndDrops(core: string, trail: string)
    requires core != "" && !IsTrailing(core[|core| - 1]) && forall i :: 0 <= i < |trail| ==> IsTrailing(trail[i])
    ensures TrimEnd(core + trail) == core
    decreases |trail|
  {
    if trail == "" {
      assert core + trail == core;
    } else {
      var s := core + trail;
      assert s[..|s| - 1] == core + trail[..|trail| - 1];
      TrimEndDrops(core, trail[..|trail| - 1]);
    }
  }

  lemma {:induction false} SkipBlanksDrops(lead: string, core: string)
    requires core != "" && !IsBlank(core[0]) && forall i :: 0 <= i < |lead| ==> IsBlank(lead[i])
    ensures SkipBlanks(lead + core) == core
    decreases |lead|
  {
    if lead == "" {
      assert lead + core == core;
    } else {
      assert (lead + core)[1..] == lead[1..] + core;
      SkipBlanksDrops(lead[1..], core);
    }
  }

  lemma {:induction false} TrimEndCuts(s: string)
    ensures |TrimEnd(s)| <= |s| && s[..|TrimEnd(s)|] == TrimEnd(s)
    ensures forall i :: |TrimEnd(s)| <= i < |s| ==> IsTrailing(s[i])
    decreases |s|
  {
    if s != "" && IsTrailing(s[|s| - 1]) {
      TrimEndCuts(s[..|s| - 1]);
    }
  }

  lemma {:induction false} SkipBlanksCuts(s: string)
    ensures |SkipBlanks(s)| <= |s| && s[|s| - |SkipBlanks(s)|..] == SkipBlanks(s)
    ensures forall i :: 0 <= i < |s| - |SkipBlanks(s)| ==> IsBlank(s[i])
    decreases |s|
  {
    if s != "" && IsBlank(s[0]) {
      SkipBlanksCuts(s[1..]);
    }
  }

  /** Whether the server takes a value that asks for a range as one: it does not read lists with empty elements. */
  predicate IsTaken(value: string, asked: Asked) {
    IsUnderstood(asked) && ',' !in value
  }

  lemma TrimmedCore(lead: string, core: string, trail: string)
    requires forall i :: 0 <= i < |lead| ==> IsBlank(lead[i])
    requires forall i :: 0 <= i < |trail| ==> IsTrailing(trail[i])
    requires core != "" && !IsBlank(core[0]) && !IsTrailing(core[|core| - 1])
    ensures Trimmed(lead + core + trail) == core
  {
    assert (lead + core)[|lead + core| - 1] == core[|core| - 1];
    TrimEndDrops(lead + core, trail);
    SkipBlanksDrops(lead, core);
  }

  lemma UnitEnds(unit: string, r: string, asked: Asked)
    requires EqualIgnoringCase(unit, UNIT) && IsRange(r, asked)
    ensures var core := unit + r;
            && !IsBlank(core[0]) && !IsTrailing(core[|core| - 1])
            && HasUnit(core) && core[|UNIT|..] == r
  {
    var core := unit + r;
    RangeEnds(r, asked);
    assert core[|core| - 1] == r[|r| - 1] && core[0] == unit[0] && Lower(unit[0]) == 'b';
    Cut(unit, r);
  }

  lemma BareValueIsRead(value: string, lead: string, unit: string, r: string, trail: string, asked: Asked)
    requires IsRangeValue(value, lead, unit, "", r, "", trail, asked)
    ensures Wanted(ParseRange(value)) == if IsUnderstood(asked) then Some(asked) else None
  {
    assert "" + r + "" == r;
    UnitEnds(unit, r, asked);
    TrimmedCore(lead, unit + r, trail);
    RangeIsRead(r, asked);
  }

  lemma CommasAreNotRead(value: string)
    requires Wanted(ParseRange(value)).Some?
    ensures ',' !in value
  {
    var lead, trail := TrimmedParts(value);
    var v := Trimmed(value);
    assert forall i :: 0 <= i < |UNIT| ==> Lower(v[..|UNIT|][i]) == Lower(UNIT[i]) != ',';
    assert v == v[..|UNIT|] + v[|UNIT|..];
  }

  lemma RequestedIsRead(value: string, asked: Asked)
    requires Requests(value, asked)
    ensures Wanted(ParseRange(value)) == if IsTaken(value, asked) then Some(asked) else None
  {
    var lead, unit, pre, r, post, trail :| IsRangeValue(value, lead, unit, pre, r, post, trail, asked);
    if Wanted(ParseRange(value)).Some? {
      CommasAreNotRead(value);
    }
    if ',' !in value {
      NoCommaNoPadding(value, lead, unit, pre, r, post, trail);
      BareValueIsRead(value, lead, unit, r, trail, asked);
    }
  }

  lemma NoCommaNoPadding(
    value: string, lead: string, unit: string, pre: string, r: string, post: string, trail: string)
    requires value == lead + (unit + (pre + r + post)) + trail && ',' !in value
    ensures ',' !in pre && ',' !in post
  {
    assert forall c :: c in pre || c in post ==> c in pre + r + post;
    assert forall c :: c in pre + r + post ==> c in unit + (pre + r + post);
  }

  lemma TrimmedParts(value: string) returns (lead: string, trail: string)
    ensures value == lead + Trimmed(value) + trail
    ensures (forall i :: 0 <= i < |lead| ==> IsBlank(lead[i]))
            && (forall i :: 0 <= i < |trail| ==> IsTrailing(trail[i]))
  {
    var t := TrimEnd(value);
    TrimEndCuts(value);
    SkipBlanksCuts(t);
    lead, trail := t[..|t| - |SkipBlanks(t)|], value[|t|..];
  }

  lemma ReadIsRequested(value: string)
    requires Wanted(ParseRange(value)).Some?
    ensures Requests(value, Wanted(ParseRange(value)).value) && IsTaken(value, Wanted(ParseRange(value)).value)
  {
    CommasAreNotRead(value);
    var lead, trail := TrimmedParts(value);
    var v := Trimmed(value);
    var unit, r := v[..|UNIT|], v[|UNIT|..];
    ReadIsRange(r);
    assert v == unit + ("" + r + "");
    assert IsRangeValue(value, lead, unit, "", r, "", trail, Wanted(SpecOf(r)).value);
  }

  /** A Range value of any text is read as a range exactly if it asks for that range, the range is understood, and there
      is no comma. */
  lemma ReadIffRequested(value: string, asked: Asked)
    ensures Wanted(ParseRange(value)) == Some(asked) <==> Requests(value, asked) && IsTaken(value, asked)
  {
    if Requests(value, asked) {
      RequestedIsRead(value, asked);
    }
    if Wanted(ParseRange(value)).Some? {
      ReadIsRequested(value);
    }
  }

  // --- the fields, over any number of Range lines ---------------------------------------------------

  /** The field updates of `parse_range_header`, src/http.c:125-151. */
  function Apply(f: RangeFields, spec: RangeSpec): (r: RangeFields) {
    match spec
    case Ignored => f
    case Broken(a) => f.(has := false, start := a)
    case Suffix(n) => f.(has := true, isSuffix := true, start := n)
    case From(a) => f.(has := true, start := a)
    case FromTo(a, b) => f.(has := true, start := a, endProvided := true, end := b)
  }

  function ApplyAll(f: RangeFields, specs: seq<RangeSpec>): (r: RangeFields) {
    if specs == [] then f else Apply(ApplyAll(f, specs[..|specs| - 1]), specs[|specs| - 1])
  }

  /** How `resolve_range` reads the fields. */
  function Meaning(f: RangeFields): (r: RangeSpec) {
    if !f.has then Ignored
    else if f.isSuffix then Suffix(f.start)
    else if f.endProvided then FromTo(f.start, f.end)
    else From(f.start)
  }

  /** The last line that is not ignored, as a request for a range. */
  function LastSpec(specs: seq<RangeSpec>): (r: RangeSpec) {
    if specs == [] then Ignored
    else if specs[|specs| - 1].Ignored? then LastSpec(specs[..|specs| - 1])
    else if specs[|specs| - 1].Broken? then Ignored
    else specs[|specs| - 1]
  }

  predicate SomeSuffix(specs: seq<RangeSpec>) {
    exists i :: 0 <= i < |specs| && specs[i].Suffix?
  }

  predicate SomeFromTo(specs: seq<RangeSpec>) {
    exists i :: 0 <= i < |specs| && specs[i].FromTo?
  }

  lemma {:induction false} FlagsStick(specs: seq<RangeSpec>)
    ensures var f := ApplyAll(NO_RANGE, specs);
            && (f.isSuffix <==> SomeSuffix(specs))
            && (f.endProvided <==> SomeFromTo(specs))
            && (f.has <==> !LastSpec(specs).Ignored?)
            && (f.has ==> f.start == if LastSpec(specs).Suffix? then LastSpec(specs).count else LastSpec(specs).first)
            && (f.has && LastSpec(specs).FromTo? ==> f.end == LastSpec(specs).last)
    decreases |specs|
  {
    if specs != [] {
      var init, last := specs[..|specs| - 1], specs[|specs| - 1];
      FlagsStick(init);
      assert specs == init + [last];
      assert SomeSuffix(specs) <==> SomeSuffix(init) || last.Suffix?;
      assert SomeFromTo(specs) <==> SomeFromTo(init) || last.FromTo?;
    }
  }

  /** The two flags are never cleared, so with several Range lines the last one is not always the one that
      is served. It is exactly when no flag is left over that its own form does not set. */
  lemma LastRangeDecidesIff(specs: seq<RangeSpec>)
    ensures Meaning(ApplyAll(NO_RANGE, specs)) == LastSpec(specs)
       <==> match LastSpec(specs)
            case FromTo(_, _) => !SomeSuffix(specs)
            case From(_) => !SomeSuffix(specs) && !SomeFromTo(specs)
            case _ => true
  {
    FlagsStick(specs);
    assert LastSpec(specs).Suffix? ==> SomeSuffix(specs) by { LastIsThere(specs); }
    assert LastSpec(specs).FromTo? ==> SomeFromTo(specs) by { LastIsThere(specs); }
  }

  lemma {:induction false} LastIsThere(specs: seq<RangeSpec>)
    ensures !LastSpec(specs).Broken?
    ensures LastSpec(specs).Ignored? || exists i :: 0 <= i < |specs| && specs[i] == LastSpec(specs)
    decreases |specs|
  {
    if specs != [] {
      LastIsThere(specs[..|specs| - 1]);
    }
  }

  // --- resolving against a file ------------------------------------------------------------------------

  datatype ByteRange = ByteRange(start: Size, end: Size, length: Size, partial: bool)

  /** The value a `size_t` takes when a sum or difference of two of them is `n`. */
  function Wrap(n: int): (r: Size)
    requires 0 <= n + SIZE_MAX && n <= SIZE_MAX + SIZE_MAX
  {
    if n < 0 then n + SIZE_MAX + 1 else if n > SIZE_MAX then n - SIZE_MAX - 1 else n
  }

  /** `resolve_range`, src/server.c:185-223. */
  function ResolveRange(f: RangeFields, size: Size): (r: Option<ByteRange>) {
    if !f.has then
      Some(ByteRange(0, if size == 0 then 0 else Wrap(size - 1), size, false))
    else if size == 0 then None
    else if f.isSuffix then
      var start := if f.start >= size then 0 else Wrap(size - f.start);
      var end := Wrap(size - 1);
      Some(ByteRange(start, end, Wrap(Wrap(end - start) + 1), true))
    else if f.start >= size then None
    else
      var end := if f.endProvided then f.end else Wrap(size - 1);
      if end < f.start then None
      else
        var last := if end >= size then Wrap(size - 1) else end;
        Some(ByteRange(f.start, last, Wrap(Wrap(last - f.start) + 1), true))
  }

  /** A zero suffix count, which one line cannot leave behind but stale flags can. */
  predicate ZeroSuffix(f: RangeFields) {
    f.has && f.isSuffix && f.start == 0
  }

  /** That `r` is what `asked` is answered with for an `n`-byte file: exactly the selected positions, or a refusal if it
      is not satisfiable. */
  ghost predicate IsSelection(r: Option<ByteRange>, asked: Asked, n: Size) {
    match r
    case None => !IsSatisfiable(asked, n)
    case Some(b) =>
      && IsSatisfiable(asked, n)
      && b.partial && b.start <= b.end < n && b.length == b.end - b.start + 1
      && forall i: nat :: Selects(asked, n, i) <==> b.start <= i <= b.end
  }

  /** A suffix count is zero exactly if the file is empty. */
  predicate SuffixMatches(f: RangeFields, size: Size) {
    f.has && f.isSuffix ==> (f.start == 0 <==> size == 0)
  }

  /** The resolved range is the requested one exactly if the fields are neither those of a zero suffix of a file that
      has any bytes nor those of a nonzero suffix of an empty file. Then no step of the computation wraps. */
  lemma ResolvedIsSelectedIff(f: RangeFields, size: Size)
    requires f.has
    ensures IsSelection(ResolveRange(f, size), Wanted(Meaning(f)).value, size) <==> SuffixMatches(f, size)
  {
    var r, asked := ResolveRange(f, size), Wanted(Meaning(f)).value;
    if r.Some? && !ZeroSuffix(f) {
      assert forall i: nat :: Selects(asked, size, i) <==> r.value.start <= i <= r.value.end;
    }
  }

  /** The length is the distance of the two ends exactly if the fields are not those of a zero suffix; then
      the subtraction wraps, and a nonempty file gets a 206 of no bytes that ends before it starts. */
  lemma LengthIsExactIff(f: RangeFields, size: Size)
    requires f.has && ResolveRange(f, size).Some?
    ensures var r := ResolveRange(f, size).value;
            && (r.length == r.end - r.start + 1 > 0 <==> !ZeroSuffix(f))
            && (ZeroSuffix(f) ==> r == ByteRange(size, size - 1, 0, true))
  {
  }

  /** One line never does, because a zero count is ignored. Whatever it says, the fields mean it. */
  lemma OneLineIsNeverZeroSuffix(value: string)
    ensures !ZeroSuffix(ApplyAll(NO_RANGE, [ParseRange(value)]))
    ensures Meaning(ApplyAll(NO_RANGE, [ParseRange(value)])) == LastSpec([ParseRange(value)])
  {
    assert [ParseRange(value)][..0] == [];
  }
}
