/** The case of letters in the header section: names, options and the range unit are read in any case, so that changing
    it anywhere changes nothing about the request. */
module HeaderCase {
  import opened Text
  import opened Numerals
  import opened Ranges
  import opened HttpParser

  /** Texts that differ at most in the case of letters. */
  predicate Same(a: string, b: string) {
    EqualIgnoringCase(a, b)
  }

  predicate IsLetter(c: char) {
    'a' <= c <= 'z' || 'A' <= c <= 'Z'
  }

  lemma NoLetterIsItself(c: char, d: char)
    requires Lower(c) == Lower(d)
    ensures c == d || (IsLetter(c) && IsLetter(d))
  {
  }

  lemma SameFront(a: string, b: string, i: nat)
    requires Same(a, b) && i <= |a|
    ensures Same(a[..i], b[..i]) && Same(a[i..], b[i..])
  {
  }

  lemma SameIndex(a: string, b: string, c: char)
    requires Same(a, b) && !IsLetter(c)
    ensures IndexOf(a, c) == IndexOf(b, c)
  {
    var i, j := IndexOf(a, c), IndexOf(b, c);
    if i < j {
      NoLetterIsItself(a[i], b[i]);
    } else if j < i {
      NoLetterIsItself(a[j], b[j]);
    }
  }

  lemma SameMembers(a: string, b: string, c: char)
    requires Same(a, b) && !IsLetter(c)
    ensures c in a <==> c in b
  {
    SameIndex(a, b, c);
    assert c in a <==> IndexOf(a, c) < |a|;
    assert c in b <==> IndexOf(b, c) < |b|;
  }

  lemma {:induction false} SameSkipped(a: string, b: string)
    requires Same(a, b)
    ensures Same(SkipBlanks(a), SkipBlanks(b))
    decreases |a|
  {
    if a != "" {
      NoLetterIsItself(a[0], b[0]);
      if IsBlank(a[0]) {
        SameFront(a, b, 1);
        SameSkipped(a[1..], b[1..]);
      }
    }
  }

  lemma {:induction false} SameTrimmed(a: string, b: string)
    requires Same(a, b)
    ensures Same(TrimEnd(a), TrimEnd(b))
    decreases |a|
  {
    if a != "" {
      NoLetterIsItself(a[|a| - 1], b[|b| - 1]);
      if IsTrailing(a[|a| - 1]) {
        SameFront(a, b, |a| - 1);
        SameTrimmed(a[..|a| - 1], b[..|b| - 1]);
      }
    }
  }

  lemma SameCopy(a: string, b: string, size: nat)
    requires Same(a, b) && size > 0
    ensures Same(CopyBounded(a, size), CopyBounded(b, size))
  {
    var c, d := if |a| >= size then a[..size - 1] else a, if |b| >= size then b[..size - 1] else b;
    assert Same(c, d);
    SameIndex(c, d, NUL);
    SameFront(c, d, IndexOf(c, NUL));
  }

  lemma SameToAll(a: string, b: string, text: string)
    requires Same(a, b)
    ensures Same(a, text) <==> Same(b, text)
  {
  }

  // --- range values ------------------------------------------------------------------------------------------

  lemma SameNumeral(a: string, b: string)
    requires Same(a, b)
    ensures IsSize(a) <==> IsSize(b)
    ensures IsDigits(a) ==> a == b
  {
    if IsDigits(a) {
      assert forall i :: 0 <= i < |a| ==> a[i] == b[i] by {
        forall i | 0 <= i < |a|
          ensures a[i] == b[i]
        {
          NoLetterIsItself(a[i], b[i]);
        }
      }
      assert a == b;
    } else {
      var i :| 0 <= i < |a| && !IsDigit(a[i]);
      NoLetterIsItself(a[i], b[i]);
    }
  }

  lemma SameSpec(a: string, b: string)
    requires Same(a, b)
    ensures SpecOf(a) == SpecOf(b)
  {
    var dash := IndexOf(a, '-');
    SameIndex(a, b, '-');
    if dash < |a| {
      SameFront(a, b, dash);
      SameFront(a, b, dash + 1);
      SameNumeral(a[..dash], b[..dash]);
      SameNumeral(a[dash + 1..], b[dash + 1..]);
    }
  }

  lemma SameRange(a: string, b: string)
    requires Same(a, b)
    ensures ParseRange(a) == ParseRange(b)
  {
    SameTrimmed(a, b);
    SameSkipped(TrimEnd(a), TrimEnd(b));
    var v, w := Trimmed(a), Trimmed(b);
    if |v| > |UNIT| {
      SameFront(v, w, |UNIT|);
      SameToAll(v[..|UNIT|], w[..|UNIT|], UNIT);
      SameMembers(v[|UNIT|..], w[|UNIT|..], ',');
      SameSpec(v[|UNIT|..], w[|UNIT|..]);
    }
  }

  // --- header lines ------------------------------------------------------------------------------------------

  lemma SameField(a: string, b: string)
    requires Same(a, b)
    ensures FieldOf(a).Some? <==> FieldOf(b).Some?
    ensures FieldOf(a).Some? ==>
              && Same(FieldOf(a).value.name, FieldOf(b).value.name)
              && Same(FieldOf(a).value.value, FieldOf(b).value.value)
  {
    var colon := IndexOf(a, ':');
    SameIndex(a, b, ':');
    if colon < |a| {
      SameFront(a, b, colon);
      SameFront(a, b, colon + 1);
      SameSkipped(a[colon + 1..], b[colon + 1..]);
      SameTrimmed(SkipBlanks(a[colon + 1..]), SkipBlanks(b[colon + 1..]));
    }
  }

  /** Headers that mean the same. */
  predicate SameHeaders(g: Headers, h: Headers) {
    Same(g.connection, h.connection) && g.range == h.range
  }

  lemma SameLine(g: Headers, h: Headers, a: string, b: string)
    requires SameHeaders(g, h) && Same(a, b)
    ensures SameHeaders(ApplyLine(g, a), ApplyLine(h, b))
  {
    SameField(a, b);
    if FieldOf(a).Some? {
      var f, e := FieldOf(a).value, FieldOf(b).value;
      SameToAll(f.name, e.name, "Connection");
      SameToAll(f.name, e.name, "Range");
      SameCopy(f.value, e.value, CONNECTION_TEXT_MAX);
      SameRange(f.value, e.value);
    }
  }

  predicate SameLines(a: seq<string>, b: seq<string>) {
    |a| == |b| && forall i :: 0 <= i < |a| ==> Same(a[i], b[i])
  }

  lemma {:induction false} SameSections(a: seq<string>, b: seq<string>)
    requires SameLines(a, b)
    ensures SameHeaders(ApplyLines(NO_HEADERS, a), ApplyLines(NO_HEADERS, b))
    decreases |a|
  {
    if a != [] {
      SameSections(a[..|a| - 1], b[..|b| - 1]);
      SameLine(ApplyLines(NO_HEADERS, a[..|a| - 1]), ApplyLines(NO_HEADERS, b[..|b| - 1]), a[|a| - 1], b[|b| - 1]);
    }
  }

  lemma SameComplete(f: LineFields, a: seq<string>, b: seq<string>)
    requires SameLines(a, b)
    ensures Complete(f, ApplyLines(NO_HEADERS, a)) == Complete(f, ApplyLines(NO_HEADERS, b))
  {
    SameSections(a, b);
    var c, d := ApplyLines(NO_HEADERS, a).connection, ApplyLines(NO_HEADERS, b).connection;
    SameToAll(c, d, "close");
    SameToAll(c, d, "keep-alive");
  }

  /** That two texts differ at most in letters of the other case. */
  predicate DifferInCase(a: string, b: string) {
    |a| == |b| && forall i :: 0 <= i < |a| ==> a[i] == b[i] || IsOtherCase(a[i], b[i])
  }

  /** Changing the case of letters anywhere in the header section, in names, in options, in the range unit or in
      anything else, changes nothing about the request. */
  lemma CaseChangesNothing(f: LineFields, a: seq<string>, b: seq<string>)
    requires |a| == |b| && forall i :: 0 <= i < |a| ==> DifferInCase(a[i], b[i])
    ensures Complete(f, ApplyLines(NO_HEADERS, a)) == Complete(f, ApplyLines(NO_HEADERS, b))
  {
    forall i | 0 <= i < |a|
      ensures Same(a[i], b[i])
    {
      EqualIgnoringCaseIff(a[i], b[i]);
    }
    SameComplete(f, a, b);
  }
}
