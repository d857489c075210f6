/** Characters and C strings. A C `char` is a Dafny `char`; only the percent codec needs the byte range. */
module Text {
  const CRLF: string := "\r\n"
  const NUL: char := '\0'

  /** The position of the first `c`, or `|s|`. */
  function IndexOf(s: string, c: char): (i: nat)
    ensures i <= |s| && (i < |s| ==> s[i] == c)
    ensures forall j :: 0 <= j < i ==> s[j] != c
  {
    if s == "" || s[0] == c then 0 else 1 + IndexOf(s[1..], c)
  }

  /** What a C reader sees of a buffer that starts with `s` and a NUL after it. */
  function CString(s: string): (c: string)
    ensures NUL !in c
  {
    s[..IndexOf(s, NUL)]
  }

  /** `copy_bounded`, src/http.c:7-14, as read back: at most `size - 1` characters, up to the first NUL. */
  function CopyBounded(s: string, size: nat): (c: string)
    requires size > 0
    ensures NUL !in c
  {
    CString(if |s| >= size then s[..size - 1] else s)
  }

  lemma CopyFits(s: string, size: nat)
    requires |s| < size && NUL !in s
    ensures CopyBounded(s, size) == s
  {
  }

  /** That `copy` is what a buffer for `limit` characters and a terminator gives back of `text`: its front, up to the
      first NUL and no longer than the limit. */
  predicate IsCut(copy: string, text: string, limit: nat) {
    && copy <= text && NUL !in copy && |copy| <= limit
    && (|copy| == limit || |copy| == |text| || text[|copy|] == NUL)
  }

  lemma CopyIsCut(s: string, size: nat)
    requires size > 0
    ensures IsCut(CopyBounded(s, size), s, size - 1)
  {
    var front := if |s| >= size then s[..size - 1] else s;
    assert CopyBounded(s, size) == front[..IndexOf(front, NUL)];
    assert IndexOf(front, NUL) < |front| ==> s[IndexOf(front, NUL)] == NUL;
  }

  /** `tolower` in the C locale. */
  function Lower(c: char): (r: char) {
    if 'A' <= c <= 'Z' then (c as int + 32) as char else c
  }

  predicate EqualIgnoringCase(a: string, b: string) {
    |a| == |b| && forall i :: 0 <= i < |a| ==> Lower(a[i]) == Lower(b[i])
  }

  /** An ASCII letter in upper and in lower case, in any order. */
  predicate IsOtherCase(c: char, d: char) {
    || ('A' <= c <= 'Z' && d as int == c as int + 32)
    || ('A' <= d <= 'Z' && c as int == d as int + 32)
  }

  lemma LowerIff(c: char, d: char)
    ensures Lower(c) == Lower(d) <==> c == d || IsOtherCase(c, d)
  {
  }

  /** Texts are equal if case is ignored exactly if they differ at most in the case of ASCII letters. */
  lemma EqualIgnoringCaseIff(a: string, b: string)
    ensures EqualIgnoringCase(a, b)
       <==> |a| == |b| && forall i :: 0 <= i < |a| ==> a[i] == b[i] || IsOtherCase(a[i], b[i])
  {
    if |a| == |b| {
      forall i | 0 <= i < |a|
        ensures Lower(a[i]) == Lower(b[i]) <==> a[i] == b[i] || IsOtherCase(a[i], b[i])
      {
        LowerIff(a[i], b[i]);
      }
    }
  }

  /** `ascii_case_equal`, src/http.c:16-25, on two C strings. */
  method AsciiCaseEqual(left: string, right: string) returns (equal: bool)
    requires NUL !in left && NUL !in right
    ensures equal == EqualIgnoringCase(left, right)
  {
    var i := 0;
    while i < |left| && i < |right|
      invariant i <= |left| && i <= |right|
      invariant forall k :: 0 <= k < i ==> Lower(left[k]) == Lower(right[k])
    {
      if Lower(left[i]) != Lower(right[i]) {
        return false;
      }
      i := i + 1;
    }
    equal := i == |left| && i == |right|;
  }

  /** `ascii_case_equal_bounded`, src/http.c:27-41. */
  method AsciiCaseEqualBounded(text: string, expected: string) returns (equal: bool)
    ensures equal == EqualIgnoringCase(text, expected)
  {
    if |text| != |expected| {
      return false;
    }
    for i := 0 to |text|
      invariant forall k :: 0 <= k < i ==> Lower(text[k]) == Lower(expected[k])
    {
      if Lower(text[i]) != Lower(expected[i]) {
        return false;
      }
    }
    equal := true;
  }

  predicate IsBlank(c: char) {
    c == ' ' || c == '\t'
  }

  predicate IsTrailing(c: char) {
    c == ' ' || c == '\t' || c == '\r' || c == '\n'
  }

  /** `text` without its leading blanks. */
  function SkipBlanks(text: string): (r: string) {
    if text != "" && IsBlank(text[0]) then SkipBlanks(text[1..]) else text
  }

  /** `text` without trailing blanks and line-end characters. */
  function TrimEnd(text: string): (r: string) {
    if text != "" && IsTrailing(text[|text| - 1]) then TrimEnd(text[..|text| - 1]) else text
  }

  /** `skip_spaces`, src/http.c:57-62: how far the start moves. */
  method SkipSpaces(text: string) returns (start: nat)
    ensures start <= |text| && text[start..] == SkipBlanks(text)
  {
    start := 0;
    while start < |text| && IsBlank(text[start])
      invariant start <= |text| && SkipBlanks(text[start..]) == SkipBlanks(text)
    {
      assert text[start..][1..] == text[start + 1..];
      start := start + 1;
    }
  }

  /** `trim_trailing_span`, src/http.c:64-70: where the end moves to. */
  method TrimTrailingSpan(text: string) returns (end: nat)
    ensures end <= |text| && text[..end] == TrimEnd(text)
  {
    end := |text|;
    assert text[..end] == text;
    while end > 0 && IsTrailing(text[end - 1])
      invariant end <= |text| && TrimEnd(text[..end]) == TrimEnd(text)
    {
      assert text[..end][..end - 1] == text[..end - 1];
      end := end - 1;
    }
  }

  // --- lines ---------------------------------------------------------------------------------------

  predicate CrlfAt(s: string, i: nat) {
    i + 1 < |s| && s[i] == '\r' && s[i + 1] == '\n'
  }

  ghost predicate IsFirstCrlf(s: string, i: nat) {
    i <= |s| && (i < |s| ==> CrlfAt(s, i)) && forall j :: 0 <= j < i ==> !CrlfAt(s, j)
  }

  /** The position of the first CRLF, or `|s|`. */
  ghost function FirstCrlf(s: string): (i: nat)
    ensures IsFirstCrlf(s, i)
  {
    FirstCrlfExists(s, 0);
    var i: nat :| IsFirstCrlf(s, i);
    i
  }

  lemma FirstCrlfExists(s: string, from: nat)
    requires from <= |s| && forall j :: 0 <= j < from ==> !CrlfAt(s, j)
    ensures exists i: nat :: IsFirstCrlf(s, i)
    decreases |s| - from
  {
    if from < |s| && !CrlfAt(s, from) {
      FirstCrlfExists(s, from + 1);
    } else {
      assert IsFirstCrlf(s, from);
    }
  }

  lemma FirstCrlfIs(s: string, i: nat)
    requires IsFirstCrlf(s, i)
    ensures FirstCrlf(s) == i
  {
  }

  lemma CutAtCrlf(s: string, i: nat)
    requires CrlfAt(s, i)
    ensures s == s[..i] + CRLF + s[i + 2..]
  {
    assert s[i..i + 2] == CRLF;
    assert s == s[..i] + s[i..i + 2] + s[i + 2..];
  }

  /** `find_crlf`, src/http.c:43-55. */
  method FindCrlf(text: string) returns (found: bool, at: nat)
    ensures found <==> FirstCrlf(text) < |text|
    ensures found ==> at == FirstCrlf(text)
  {
    found, at := false, 0;
    if |text| < 2 {
      return;
    }
    while at + 1 < |text|
      invariant at < |text|
      invariant forall j :: 0 <= j < at ==> !CrlfAt(text, j)
    {
      if text[at] == '\r' && text[at + 1] == '\n' {
        FirstCrlfIs(text, at);
        return true, at;
      }
      at := at + 1;
    }
  }

  ghost predicate CrlfFree(s: string) {
    FirstCrlf(s) == |s|
  }

  /** A text without CRLF that does not end in a CR, followed by CRLF: the line ends there. */
  lemma LineEnd(line: string, rest: string)
    requires CrlfFree(line)
    ensures FirstCrlf(line + CRLF + rest) == |line|
  {
    var s := line + CRLF + rest;
    assert s[|line|] == '\r' && s[|line| + 1] == '\n';
    forall j | 0 <= j < |line|
      ensures !CrlfAt(s, j)
    {
      assert !CrlfAt(line, j);
    }
    FirstCrlfIs(s, |line|);
  }
}
