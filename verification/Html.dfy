/** HTML text as src/files.c:91-122 writes it, against the way a browser reads it. */
module Html {
  import opened Prelude

  function EscapeChar(c: char): (r: string) {
    match c
    case '&' => "&amp;"
    case '<' => "&lt;"
    case '>' => "&gt;"
    case '"' => "&quot;"
    case _ => [c]
  }

  function HtmlEscape(s: string): (r: string) {
    if s == "" then "" else EscapeChar(s[0]) + HtmlEscape(s[1..])
  }

  /** The character at the front of HTML text, a named character reference or itself, and what follows it. */
  function ReadChar(s: string): (r: (char, string))
    requires s != ""
  {
    if "&amp;" <= s then ('&', s[5..])
    else if "&lt;" <= s then ('<', s[4..])
    else if "&gt;" <= s then ('>', s[4..])
    else if "&quot;" <= s then ('"', s[6..])
    else (s[0], s[1..])
  }

  function HtmlUnescape(s: string): (r: string)
    decreases |s|
  {
    if s == "" then ""
    else
      var (c, rest) := ReadChar(s);
      [c] + HtmlUnescape(rest)
  }

  lemma EscapedCharReads(c: char, rest: string)
    ensures ReadChar(EscapeChar(c) + rest) == (c, rest)
  {
    Cut(EscapeChar(c), rest);
    var s := EscapeChar(c) + rest;
    assert s[0] == EscapeChar(c)[0];
    if c != '&' && |EscapeChar(c)| > 1 {
      assert s[1] == EscapeChar(c)[1];
    }
  }

  lemma {:induction false} HtmlRoundTrip(s: string)
    ensures HtmlUnescape(HtmlEscape(s)) == s
  {
    if s != "" {
      EscapedCharReads(s[0], HtmlEscape(s[1..]));
      HtmlRoundTrip(s[1..]);
    }
  }

  /** Escaped text neither opens nor closes a tag, nor ends an attribute value. */
  lemma {:induction false} EscapedHasNoDelimiter(s: string)
    ensures '<' !in HtmlEscape(s) && '>' !in HtmlEscape(s) && '"' !in HtmlEscape(s)
  {
    if s != "" {
      EscapedHasNoDelimiter(s[1..]);
    }
  }
}
