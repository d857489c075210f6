/** Percent coding in src/files.c: `decode_path` against `builder_append_url_escaped`. */
module UrlCodec {
  import opened Prelude
  import opened Text

  predicate IsByte(c: char) {
    c as int < 256
  }

  predicate IsBytes(s: string) {
    forall i :: 0 <= i < |s| ==> IsByte(s[i])
  }

  // --- encoding -----------------------------------------------------------------------------------------

  /** The unreserved characters of section 2.3 of RFC 3986. */
  predicate IsUnreserved(c: char) {
    'a' <= c <= 'z' || 'A' <= c <= 'Z' || '0' <= c <= '9' || c == '-' || c == '.' || c == '_' || c == '~'
  }

  function HexDigit(n: nat): (r: char)
    requires n < 16
  {
    if n < 10 then (n + '0' as int) as char else (n - 10 + 'A' as int) as char
  }

  function EscapeByte(c: char): (r: string)
    requires IsByte(c)
  {
    if IsUnreserved(c) then [c] else ['%', HexDigit(c as int / 16), HexDigit(c as int % 16)]
  }

  function UrlEscape(s: string): (r: string)
    requires IsBytes(s)
  {
    if s == "" then "" else EscapeByte(s[0]) + UrlEscape(s[1..])
  }

  // --- decoding -------------------------------------------------------------------------------------------

  /** `hex_value`, -1 for what is no hexadecimal digit. */
  function HexValue(c: char): (v: int)
    ensures -1 <= v < 16
  {
    if '0' <= c <= '9' then c as int - '0' as int
    else if 'a' <= c <= 'f' then c as int - 'a' as int + 10
    else if 'A' <= c <= 'F' then c as int - 'A' as int + 10
    else -1
  }

  datatype Decoded = Done(text: string) | Forbidden | TooLong

  /** The character at the front of a path and what follows it; none if a percent sign is not followed by two
      hexadecimal digits. */
  function DecodeOne(s: string): (r: Option<(char, string)>)
    requires s != ""
  {
    if s[0] == '%' then
      if |s| < 3 || HexValue(s[1]) < 0 || HexValue(s[2]) < 0 then None
      else Some(((16 * HexValue(s[1]) + HexValue(s[2])) as char, s[3..]))
    else Some((if s[0] == '+' then ' ' else s[0], s[1..]))
  }

  predicate IsForbidden(c: char) {
    c == NUL || c == '\\'
  }

  /** `decode_path` into `room` characters and a terminator; the first problem from the left decides. */
  function Decode(s: string, room: nat): (r: Decoded)
    decreases |s|
  {
    if s == "" then Done("")
    else
      match DecodeOne(s)
      case None => Forbidden
      case Some((c, rest)) =>
        if IsForbidden(c) then Forbidden
        else if room == 0 then TooLong
        else
          match Decode(rest, room - 1)
          case Done(text) => Done([c] + text)
          case bad => bad
  }

  function After(front: string, d: Decoded): (r: Decoded) {
    match d
    case Done(text) => Done(front + text)
    case bad => bad
  }

  datatype FileResult = Ok | NotFound | NotAllowed | Error

  /** `decode_path`, src/files.c:220-258. Behind the end of the input no digit is found. */
  method DecodePath(input: string, output: array<char>) returns (result: FileResult)
    requires NUL !in input
    modifies output
    ensures output.Length == 0 ==> result == Error
    ensures output.Length > 0 ==>
              match Decode(input, output.Length - 1)
              case Done(text) =>
                result == Ok && |text| < output.Length && output[..|text|] == text && output[|text|] == NUL
              case Forbidden => result == NotAllowed
              case TooLong => result == Error
  {
    if output.Length == 0 {
      return Error;
    }
    var written, i := 0, 0;
    ghost var front := "";
    assert input[0..] == input;
    while i < |input|
      invariant i <= |input| && written < output.Length && front == output[..written]
      invariant Decode(input, output.Length - 1) == After(front, Decode(input[i..], output.Length - 1 - written))
    {
      var ch := input[i];
      ghost var s := input[i..];
      if ch == '%' {
        var high := if i + 1 < |input| then HexValue(input[i + 1]) else -1;
        var low := if i + 2 < |input| then HexValue(input[i + 2]) else -1;
        if high < 0 || low < 0 {
          return NotAllowed;
        }
        ch := (16 * high + low) as char;
        i := i + 2;
      } else if ch == '+' {
        ch := ' ';
      }
      assert DecodeOne(s) == Some((ch, input[i + 1..]));
      if ch == NUL || ch == '\\' {
        return NotAllowed;
      }
      if written + 1 >= output.Length {
        return Error;
      }
      ghost var d := Decode(input[i + 1..], output.Length - 1 - (written + 1));
      AfterAfter(front, [ch], d);
      output[written] := ch;
      written := written + 1;
      front := front + [ch];
      i := i + 1;
    }
    output[written] := NUL;
    assert front + "" == front;
    assert output[..written] == front;
    result := Ok;
  }

  /** What was decoded is a C string, and free of backslashes. */
  lemma {:induction false} DecodedIsClean(s: string, room: nat)
    ensures var d := Decode(s, room); d.Done? ==> NUL !in d.text && '\\' !in d.text && |d.text| <= room
    decreases |s|
  {
    if s != "" && room > 0 {
      match DecodeOne(s)
      case None =>
      case Some((c, rest)) => DecodedIsClean(rest, room - 1);
    }
  }

  /** Decoding goes on behind a decoded front: a link below a directory's path is an entry below the directory. */
  lemma {:induction false} DecodeAppends(a: string, b: string, room: nat)
    requires Decode(a, room).Done?
    ensures var d := Decode(a, room).text;
            |d| <= room && Decode(a + b, room) == After(d, Decode(b, room - |d|))
    decreases |a|
  {
    if a == "" {
      assert a + b == b;
      AfterNothing(Decode(b, room));
    } else {
      var c, rest := DecodeOne(a).value.0, DecodeOne(a).value.1;
      assert DecodeOne(a + b) == Some((c, rest + b)) by {
        assert (a + b)[1..] == a[1..] + b;
        assert a[0] == '%' ==> (a + b)[3..] == a[3..] + b;
      }
      DecodeAppends(rest, b, room - 1);
      var d := Decode(rest, room - 1).text;
      AfterAfter([c], d, Decode(b, room - 1 - |d|));
    }
  }

  lemma AfterNothing(d: Decoded)
    ensures After("", d) == d
  {
    if d.Done? {
      assert "" + d.text == d.text;
    }
  }

  lemma AfterAfter(a: string, b: string, d: Decoded)
    ensures After(a, After(b, d)) == After(a + b, d)
  {
    if d.Done? {
      Assoc(a, b, d.text);
    }
  }

  // --- what decoding means -----------------------------------------------------------------------------------

  predicate IsHexDigit(c: char, v: nat) {
    v < 16 && (c == "0123456789abcdef"[v] || c == "0123456789ABCDEF"[v])
  }

  /** That a path stands for a text: character by character for itself, a plus sign for a space, or a percent sign and
      two hexadecimal digits, in either case, for the byte. */
  ghost predicate Encodes(s: string, t: string)
    decreases |t|
  {
    if t == "" then s == ""
    else
      && s != ""
      && (|| (s[0] == t[0] && s[0] != '%' && s[0] != '+' && Encodes(s[1..], t[1..]))
          || (s[0] == '+' && t[0] == ' ' && Encodes(s[1..], t[1..]))
          || (&& |s| >= 3 && s[0] == '%'
              && (exists h: nat, l: nat :: IsHexDigit(s[1], h) && IsHexDigit(s[2], l) && t[0] as int == 16 * h + l)
              && Encodes(s[3..], t[1..])))
  }

  lemma HexValueIff(c: char, v: nat)
    ensures IsHexDigit(c, v) <==> HexValue(c) == v
  {
  }

  lemma OneEncodes(s: string, c: char, t: string)
    requires s != ""
    ensures Encodes(s, [c] + t) <==> DecodeOne(s).Some? && DecodeOne(s).value.0 == c && Encodes(DecodeOne(s).value.1, t)
  {
    assert ([c] + t)[1..] == t;
    if s[0] == '%' && |s| >= 3 {
      TwoDigits(s[1], s[2], c as int);
    }
  }

  lemma TwoDigits(a: char, b: char, n: nat)
    ensures (exists h: nat, l: nat :: IsHexDigit(a, h) && IsHexDigit(b, l) && n == 16 * h + l)
       <==> HexValue(a) >= 0 && HexValue(b) >= 0 && n == 16 * HexValue(a) + HexValue(b)
  {
    if h: nat, l: nat :| IsHexDigit(a, h) && IsHexDigit(b, l) && n == 16 * h + l {
      HexValueIff(a, h);
      HexValueIff(b, l);
    }
    if HexValue(a) >= 0 && HexValue(b) >= 0 {
      HexValueIff(a, HexValue(a));
      HexValueIff(b, HexValue(b));
    }
  }

  /** A path decodes to exactly what it stands for, if that has no NUL and no backslash and fits. */
  lemma {:induction false} DecodesIff(s: string, room: nat, t: string)
    ensures Decode(s, room) == Done(t) <==> Encodes(s, t) && NUL !in t && '\\' !in t && |t| <= room
    decreases |s|
  {
    if s == "" {
    } else if t == "" {
    } else {
      assert t == [t[0]] + t[1..];
      OneEncodes(s, t[0], t[1..]);
      if DecodeOne(s).Some? && room > 0 {
        DecodesIff(DecodeOne(s).value.1, room - 1, t[1..]);
      }
    }
  }

  /** A path is too long exactly if some front of it decodes to one character more than there is room; all others that
      do not decode are forbidden. */
  lemma {:induction false} TooLongIff(s: string, room: nat)
    ensures Decode(s, room).TooLong? <==> exists k: nat :: FillsUp(s, k, room)
    decreases |s|
  {
    if s == "" {
      forall k: nat
        ensures !FillsUp(s, k, room)
      {
        assert k <= |s| ==> s[..k] == "";
      }
    } else {
      FrontOfOne(s);
      if DecodeOne(s).Some? {
        var c, rest := DecodeOne(s).value.0, DecodeOne(s).value.1;
        var n := |s| - |rest|;
        if room > 0 {
          TooLongIff(rest, room - 1);
        }
        forall k: nat | n <= k <= |s|
          ensures DecodeOne(s[..k]) == Some((c, rest[..k - n]))
          ensures FillsUp(s, k, room) <==>
                  !IsForbidden(c) && if room == 0 then k == n else FillsUp(rest, k - n, room - 1)
        {
          LongerFront(s, k);
          EmptyIff(rest[..k - n]);
        }
        if room > 0 && Decode(rest, room - 1).TooLong? && !IsForbidden(c) {
          var k: nat :| FillsUp(rest, k, room - 1);
          assert FillsUp(s, k + n, room);
        }
        if room == 0 && !IsForbidden(c) {
          assert FillsUp(s, n, room);
        }
        forall k: nat | k < n
          ensures !FillsUp(s, k, room)
        {
          ShorterFront(s, k);
        }
      } else {
        forall k: nat | k <= |s|
          ensures !FillsUp(s, k, room)
        {
          NoFront(s, k);
        }
      }
    }
  }

  /** That the first `k` characters of a path decode to one character more than there is room. */
  predicate FillsUp(s: string, k: nat, room: nat) {
    k <= |s| && Decode(s[..k], room + 1).Done? && |Decode(s[..k], room + 1).text| == room + 1
  }

  lemma FrontOfOne(s: string)
    requires s != ""
    ensures DecodeOne(s).Some? ==> |DecodeOne(s).value.1| < |s|
  {
  }

  lemma LongerFront(s: string, k: nat)
    requires s != "" && DecodeOne(s).Some? && |s| - |DecodeOne(s).value.1| <= k <= |s|
    ensures s[..k] != ""
    ensures DecodeOne(s[..k])
         == Some((DecodeOne(s).value.0, DecodeOne(s).value.1[..k - (|s| - |DecodeOne(s).value.1|)]))
  {
    assert s[..k][0] == s[0];
    if s[0] == '%' {
      assert s[..k][1] == s[1] && s[..k][2] == s[2];
      assert s[..k][3..] == s[3..][..k - 3];
    } else {
      assert s[..k][1..] == s[1..][..k - 1];
    }
  }

  lemma ShorterFront(s: string, k: nat)
    requires s != "" && DecodeOne(s).Some? && k < |s| - |DecodeOne(s).value.1|
    ensures s[..k] == "" || DecodeOne(s[..k]) == None
  {
  }

  lemma NoFront(s: string, k: nat)
    requires s != "" && DecodeOne(s) == None && k <= |s|
    ensures s[..k] == "" || DecodeOne(s[..k]) == None
  {
  }

  lemma EmptyIff(s: string)
    ensures Decode(s, 0) == Done("") <==> s == ""
  {
  }

  // --- the two against each other ----------------------------------------------------------------------------

  lemma HexRoundTrip(c: char)
    requires IsByte(c)
    ensures HexValue(HexDigit(c as int / 16)) == c as int / 16 && HexValue(HexDigit(c as int % 16)) == c as int % 16
  {
  }

  lemma EscapedByteDecodes(c: char, rest: string)
    requires IsByte(c)
    ensures DecodeOne(EscapeByte(c) + rest) == Some((c, rest))
  {
    HexRoundTrip(c);
    Cut(EscapeByte(c), rest);
    if !IsUnreserved(c) {
      var h, l := c as int / 16, c as int % 16;
      assert 16 * h + l == c as int;
      assert (16 * h + l) as char == c;
    }
  }

  /** A link decodes to the name it was made from, exactly if the name has no backslash and fits. */
  lemma {:induction false} LinkRoundTrip(name: string, room: nat)
    requires IsBytes(name) && NUL !in name
    ensures var d := Decode(UrlEscape(name), room);
            && (d.Done? <==> '\\' !in name && |name| <= room)
            && (d.Done? ==> d.text == name)
    decreases |name|
  {
    if name != "" {
      EscapedByteDecodes(name[0], UrlEscape(name[1..]));
      if room > 0 {
        LinkRoundTrip(name[1..], room - 1);
      }
      assert name == [name[0]] + name[1..];
    }
  }

  /** A sequence of unreserved characters and percent-coded bytes with upper-case digits. */
  predicate IsEncoded(s: string)
    decreases |s|
  {
    s == "" || (if s[0] == '%' then
                  |s| >= 3 && HexValue(s[1]) >= 0 && HexValue(s[2]) >= 0 && s[1] <= 'F' && s[2] <= 'F'
                    && IsEncoded(s[3..])
                else IsUnreserved(s[0]) && IsEncoded(s[1..]))
  }

  /** Links consist of unreserved characters and percent-coded bytes only. */
  lemma {:induction false} LinksAreEncoded(name: string)
    requires IsBytes(name)
    ensures IsEncoded(UrlEscape(name))
    decreases |name|
  {
    if name != "" {
      LinksAreEncoded(name[1..]);
      HexRoundTrip(name[0]);
      Cut(EscapeByte(name[0]), UrlEscape(name[1..]));
    }
  }

  /** No character of a link ends the attribute it stands in or looks like a path separator. */
  lemma {:induction false} LinksHaveNoDelimiter(name: string)
    requires IsBytes(name)
    ensures '"' !in UrlEscape(name) && '/' !in UrlEscape(name) && '<' !in UrlEscape(name) && '>' !in UrlEscape(name)
    decreases |name|
  {
    if name != "" {
      LinksHaveNoDelimiter(name[1..]);
    }
  }

  /** The decoder without its prohibitions and its limit. */
  function Unescape(s: string): (r: string)
    decreases |s|
  {
    if s == "" then ""
    else
      match DecodeOne(s)
      case None => ""
      case Some((c, rest)) => [c] + Unescape(rest)
  }

  lemma {:induction false} UnescapeUndoes(name: string)
    requires IsBytes(name)
    ensures Unescape(UrlEscape(name)) == name
    decreases |name|
  {
    if name != "" {
      EscapedByteDecodes(name[0], UrlEscape(name[1..]));
      UnescapeUndoes(name[1..]);
    }
  }

  /** The unreserved characters, one by one. */
  const UNRESERVED: string := "abcdefghijklmnopqrstuvwxyz" + "ABCDEFGHIJKLMNOPQRSTUVWXYZ" + "0123456789" + "-._~"

  lemma RunOf(s: string, first: char, c: char)
    requires forall i :: 0 <= i < |s| ==> s[i] as int == first as int + i
    ensures c in s <==> first as int <= c as int < first as int + |s|
  {
    if first as int <= c as int < first as int + |s| {
      assert s[c as int - first as int] == c;
    }
  }

  lemma UnreservedIff(c: char)
    ensures IsUnreserved(c) <==> c in UNRESERVED
  {
    RunOf("abcdefghijklmnopqrstuvwxyz", 'a', c);
    RunOf("ABCDEFGHIJKLMNOPQRSTUVWXYZ", 'A', c);
    RunOf("0123456789", '0', c);
    assert c in "-._~" <==> c == '-' || c == '.' || c == '_' || c == '~';
    InSum("abcdefghijklmnopqrstuvwxyz", "ABCDEFGHIJKLMNOPQRSTUVWXYZ", "0123456789", "-._~", c);
  }

  lemma InSum(p: string, q: string, r: string, s: string, c: char)
    ensures c in p + q + r + s <==> c in p || c in q || c in r || c in s
  {
  }

  /** A link has no other characters than these and the percent sign. */
  lemma {:induction false} LinkCharacters(name: string)
    requires IsBytes(name)
    ensures forall c :: c in UrlEscape(name) ==> c == '%' || c in UNRESERVED
    decreases |name|
  {
    if name != "" {
      LinkCharacters(name[1..]);
      forall c | c in EscapeByte(name[0])
        ensures c == '%' || c in UNRESERVED
      {
        UnreservedIff(c);
      }
    }
  }

  /** Different names have different links, backslashes and NULs included. */
  lemma EscapingIsInjective(a: string, b: string)
    requires IsBytes(a) && IsBytes(b) && UrlEscape(a) == UrlEscape(b)
    ensures a == b
  {
    UnescapeUndoes(a);
    UnescapeUndoes(b);
  }
}
