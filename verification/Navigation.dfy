/** Following a link of a listing, as a client does it: section 5.2.3 of RFC 3986, the request parser's limit on paths,
    the percent codec and path resolution together. */
module Navigation {
  import opened Prelude
  import opened Text
  import opened UrlCodec
  import opened Listing
  import opened Paths
  import HttpParser

  // --- what the client asks for ----------------------------------------------------------------------------

  /** The length of a path up to its last slash, that included. */
  function BaseLength(path: string): (n: nat)
    ensures n <= |path| && '/' !in path[n..] && (n > 0 ==> path[n - 1] == '/')
  {
    if path == "" || path[|path| - 1] == '/' then |path| else BaseLength(path[..|path| - 1])
  }

  /** Section 5.2.3 of RFC 3986: a relative reference replaces what follows the last slash. */
  function Merge(base: string, reference: string): (r: string) {
    base[..BaseLength(base)] + reference
  }

  /** The reference a listing has for an entry, src/files.c:574-576. */
  function LinkOf(e: Entry): (r: string)
    requires IsName(e.name)
  {
    UrlEscape(e.name) + Slash(e)
  }

  /** What the server keeps of a path without NUL, src/http.c:261. */
  function Received(path: string): (r: string) {
    CopyBounded(path, HttpParser.PATH_MAX)
  }

  lemma ReceivedIs(path: string)
    requires NUL !in path
    ensures Received(path) == if |path| < HttpParser.PATH_MAX then path else path[..HttpParser.PATH_MAX - 1]
  {
    CopyFits(if |path| < HttpParser.PATH_MAX then path else path[..HttpParser.PATH_MAX - 1], HttpParser.PATH_MAX);
  }

  // --- where a request leads -----------------------------------------------------------------------------------

  predicate Fits(root: string, text: string) {
    |root + "/" + Relative(text)| < FILE_PATH_MAX
  }

  /** Where a request path leads without symbolic links, if it passes all checks on its text. */
  function Leads(cwd: seq<string>, root: string, request: string): (r: Option<seq<string>>) {
    match Decode(request, FILE_PATH_MAX - 1)
    case Done(text) =>
      if root == "" || HasDotDot(text) || !Fits(root, text) then None
      else Some(Lexical(cwd, root + "/" + Relative(text)))
    case _ => None
  }

  lemma LeadsMeans(cwd: seq<string>, root: string, request: string, text: string)
    requires Decode(request, FILE_PATH_MAX - 1) == Done(text)
    ensures Leads(cwd, root, request)
         == if root == "" || HasDotDot(text) || !Fits(root, text) then None
            else Some(Lexical(cwd, root) + Plain(Segments(text)))
  {
    if root != "" && !HasDotDot(text) {
      LeadsBelowRoot(cwd, root, text);
    }
  }

  lemma RenderIsInjective(a: seq<string>, b: seq<string>)
    requires AreComponents(a) && AreComponents(b) && Render(a) == Render(b)
    ensures a == b
  {
    PrefixMeansBelow(a, b);
    PrefixMeansBelow(b, a);
  }

  /** What is resolved is where the request leads. */
  lemma ResolvedIsWhereItLeads(cwd: seq<string>, root: string, request: string, realpath: string -> RealPath, size: nat)
    requires LinkFree(realpath, cwd) && Resolve(root, request, realpath, size).Resolved?
    ensures var at := Leads(cwd, root, request);
            at.Some? && AreComponents(at.value) && Resolve(root, request, realpath, size).path == Render(at.value)
  {
    var text := Decode(request, FILE_PATH_MAX - 1).text;
    var joined := root + "/" + Relative(text);
    LastCheckRejectsIff(cwd, root, text, realpath, size);
    LeadsMeans(cwd, root, request, text);
    SegmentsHaveNoSlash(joined);
    WalkIsCanonical(if joined[0] == '/' then [] else cwd, Segments(joined));
  }

  // --- decoding around a slash ---------------------------------------------------------------------------------

  /** A limit that is not reached does not matter. */
  lemma {:induction false} RoomIsEnough(s: string, a: nat, b: nat)
    requires |s| <= a && |s| <= b
    ensures Decode(s, a) == Decode(s, b)
    decreases |s|
  {
    if s != "" && DecodeOne(s).Some? {
      RoomIsEnough(DecodeOne(s).value.1, a - 1, b - 1);
    }
  }

  /** A raw slash ends every percent-coded byte, so what decodes does so on both sides of it. */
  lemma {:induction false} SlashDecodesApart(a: string, b: string, room: nat)
    requires Decode(a + ("/" + b), room).Done?
    ensures Decode(a, room).Done? && |Decode(a, room).text| < room
    ensures Decode(b, room - |Decode(a, room).text| - 1).Done?
    ensures Decode(a + ("/" + b), room).text
         == Decode(a, room).text + ("/" + Decode(b, room - |Decode(a, room).text| - 1).text)
    decreases |a|
  {
    var s := a + ("/" + b);
    if a == "" {
      assert s == "/" + b && s[1..] == b;
      assert DecodeOne(s) == Some(('/', b));
      assert "" + ("/" + Decode(b, room - 1).text) == ['/'] + Decode(b, room - 1).text;
    } else {
      var c, rest := OneBeforeSlash(a, b);
      SlashDecodesApart(rest, b, room - 1);
      var front, back := Decode(rest, room - 1).text, "/" + Decode(b, room - 1 - |Decode(rest,
        room - 1).text| - 1).text;
      Assoc([c], front, back);
    }
  }

  lemma OneBeforeSlash(a: string, b: string) returns (c: char, rest: string)
    requires a != "" && DecodeOne(a + ("/" + b)).Some?
    ensures DecodeOne(a) == Some((c, rest)) && |rest| < |a|
    ensures DecodeOne(a + ("/" + b)) == Some((c, rest + ("/" + b)))
  {
    var s := a + ("/" + b);
    assert s[0] == a[0] && HexValue('/') < 0;
    assert s[|a|] == '/';
    assert a[0] == '%' ==> s[1] == a[1] && s[2] == a[2] && s[3..] == a[3..] + ("/" + b);
    assert s[1..] == a[1..] + ("/" + b);
    c, rest := DecodeOne(a).value.0, DecodeOne(a).value.1;
  }

  /** A front part of a link decodes, if at all, to a front part of the name, and not to all of it. */
  lemma {:induction false} FrontOfLink(name: string, k: nat, room: nat)
    requires IsBytes(name) && k < |UrlEscape(name)|
    ensures var d := Decode(UrlEscape(name)[..k], room);
            d.Done? ==> |d.text| < |name| && d.text == name[..|d.text|]
    decreases |name|
  {
    var first, rest := EscapeByte(name[0]), UrlEscape(name[1..]);
    var s := UrlEscape(name)[..k];
    if k < |first| {
      assert s == first[..k];
    } else if room > 0 {
      assert s == first + rest[..k - |first|];
      EscapedByteDecodes(name[0], rest[..k - |first|]);
      FrontOfLink(name[1..], k - |first|, room - 1);
      var d := Decode(rest[..k - |first|], room - 1);
      if d.Done? && |d.text| < |name[1..]| {
        assert [name[0]] + name[1..][..|d.text|] == name[..|d.text| + 1];
      }
    } else {
      assert s == first + rest[..k - |first|];
      EscapedByteDecodes(name[0], rest[..k - |first|]);
    }
  }

  lemma LinkTextDecodes(e: Entry, room: nat)
    requires IsName(e.name) && |e.name + Slash(e)| <= room
    ensures var d := Decode(LinkOf(e), room);
            (d.Done? <==> '\\' !in e.name) && (d.Done? ==> d.text == e.name + Slash(e))
  {
    LinkRoundTrip(e.name, room);
    if '\\' !in e.name {
      DecodeAppends(UrlEscape(e.name), Slash(e), room);
      SlashDecodes(e, room - |e.name|);
    } else {
      BackslashStays(e.name, Slash(e), room);
    }
  }

  /** Forbidden characters in a link are found, whatever follows. */
  lemma {:induction false} BackslashStays(name: string, rest: string, room: nat)
    requires IsName(name) && '\\' in name && |name| <= room
    ensures Decode(UrlEscape(name) + rest, room).Forbidden?
    decreases |name|
  {
    var tail := UrlEscape(name[1..]);
    Assoc(EscapeByte(name[0]), tail, rest);
    EscapedByteDecodes(name[0], tail + rest);
    if name[0] != '\\' {
      BackslashStays(name[1..], rest, room - 1);
    }
  }

  lemma SlashDecodes(e: Entry, room: nat)
    requires |Slash(e)| <= room
    ensures Decode(Slash(e), room) == Done(Slash(e))
  {
    if e.isDirectory {
      assert "/"[1..] == "";
      assert DecodeOne("/") == Some(('/', ""));
    }
  }

  // --- segments ------------------------------------------------------------------------------------------------

  lemma {:induction false} PlainAppends(a: seq<string>, b: seq<string>)
    ensures Plain(a + b) == Plain(a) + Plain(b)
  {
    if a == [] {
      assert a + b == b;
    } else {
      assert (a + b)[1..] == a[1..] + b;
      PlainAppends(a[1..], b);
    }
  }

  lemma OneSegment(s: string)
    requires '/' !in s
    ensures Segments(s) == [s]
  {
  }

  lemma EntrySegments(e: Entry)
    requires IsComponent(e.name)
    ensures var last := Segments(e.name + Slash(e)); ".." !in last && Plain(last) == [e.name]
  {
    OneSegment(e.name);
    OneSegment("");
    assert Plain([e.name]) == [e.name] + Plain([]);
    if e.isDirectory {
      assert e.name + "/" == e.name + "/" + "";
      SegmentsOfJoin(e.name, "");
      PlainAppends([e.name], [""]);
      assert Plain([""]) == Plain([]);
    } else {
      assert e.name + "" == e.name;
    }
  }

  /** Decoded text up to a slash. */
  predicate IsBase(text: string) {
    text == "" || text[|text| - 1] == '/'
  }

  /** The segments of a base do not depend on what follows it. */
  function BaseSegments(base: string): (r: seq<string>)
    requires IsBase(base)
  {
    if base == "" then [] else Segments(base[..|base| - 1])
  }

  lemma SegmentsOfBase(base: string, rest: string)
    requires IsBase(base)
    ensures Segments(base + rest) == BaseSegments(base) + Segments(rest)
    ensures Plain(Segments(base + rest)) == Plain(BaseSegments(base)) + Plain(Segments(rest))
    ensures HasDotDot(base + rest) <==> ".." in BaseSegments(base) || HasDotDot(rest)
  {
    if base == "" {
      assert base + rest == rest;
      assert [] + Segments(rest) == Segments(rest);
    } else {
      assert base == base[..|base| - 1] + "/";
      SegmentsOfJoin(base[..|base| - 1], rest);
    }
    PlainAppends(BaseSegments(base), Segments(rest));
  }

  // --- following a link ----------------------------------------------------------------------------------------

  /** What follows the last slash of a path names nothing: it is empty, or all of its segments are empty or ".". */
  predicate NamesNothing(tail: string) {
    var d := Decode(tail, FILE_PATH_MAX - 1);
    d.Done? && Plain(Segments(d.text)) == []
  }

  /** The entry a client asks for if the slash of its link is cut off. */
  function AsReceived(path: string, e: Entry): (r: Entry)
    requires IsName(e.name)
  {
    e.(isDirectory := e.isDirectory && |Merge(path, LinkOf(e))| < HttpParser.PATH_MAX)
  }

  /** Links work below a path whose end after the last slash names nothing, for names without backslash, as long as the
      path with the name in it is not cut and, below the root, is not too long. */
  predicate LinkWorks(root: string, path: string, e: Entry)
    requires IsName(e.name)
  {
    var n := BaseLength(path);
    && '\\' !in e.name
    && n + |UrlEscape(e.name)| < HttpParser.PATH_MAX
    && n <= |Received(path)| && NamesNothing(Received(path)[n..])
    && match Decode(path[..n], FILE_PATH_MAX - 1)
       case Done(base) => Fits(root, base + (e.name + Slash(AsReceived(path, e))))
       case _ => false
  }

  lemma {:induction false} DecodedLength(s: string, room: nat)
    ensures Decode(s, room).Done? ==> |Decode(s, room).text| <= |s|
    decreases |s|
  {
    if s != "" && room > 0 && DecodeOne(s).Some? {
      DecodedLength(DecodeOne(s).value.1, room - 1);
    }
  }

  lemma DecodedApart(a: string, rest: string, room: nat) returns (base: string, tail: string)
    requires |a| + 1 + |rest| <= room && Decode(a + ("/" + rest), room).Done?
    ensures Decode(a + "/", room) == Done(base) && IsBase(base) && |base| <= |a| + 1
    ensures Decode(rest, room) == Done(tail) && Decode(a + ("/" + rest), room) == Done(base + tail)
  {
    SlashDecodesApart(a, rest, room);
    var front := Decode(a, room).text;
    DecodedLength(a, room);
    RoomIsEnough(rest, room - |front| - 1, room);
    base, tail := front + "/", Decode(rest, room).text;
    DecodeAppends(a, "/", room);
    SlashDecodes(Entry("", true), room - |front|);
    Assoc(front, "/", tail);
  }

  /** The path of a listing, cut at its last slash and decoded on both sides of it. */
  lemma PathApart(path: string, received: string, n: nat, text: string) returns (base: string, tail: string)
    requires n <= |received| < HttpParser.PATH_MAX && n <= |path| && received[..n] == path[..n]
    requires n > 0 ==> path[n - 1] == '/'
    requires Decode(received, FILE_PATH_MAX - 1) == Done(text)
    ensures Decode(path[..n], FILE_PATH_MAX - 1) == Done(base) && IsBase(base) && |base| <= n
    ensures Decode(received[n..], FILE_PATH_MAX - 1) == Done(tail) && text == base + tail
  {
    var rest := received[n..];
    if n == 0 {
      assert rest == received;
      base, tail := "", text;
      assert "" + tail == text;
    } else {
      var a := path[..n - 1];
      assert path[..n] == a + "/";
      assert received == received[..n] + rest;
      Assoc(a, "/", rest);
      base, tail := DecodedApart(a, rest, FILE_PATH_MAX - 1);
    }
  }

  /** What the server makes of a merged path that is not cut inside the name. */
  lemma MergedIsReceived(path: string, e: Entry)
    requires NUL !in path && IsName(e.name)
    requires BaseLength(path) + |UrlEscape(e.name)| < HttpParser.PATH_MAX
    ensures Received(Merge(path, LinkOf(e))) == path[..BaseLength(path)] + LinkOf(AsReceived(path, e))
  {
    var front, u := path[..BaseLength(path)], UrlEscape(e.name);
    MergedHasNoNul(path, e);
    ReceivedIs(Merge(path, LinkOf(e)));
    OneSlashLess(front, u, Slash(e));
  }

  lemma OneSlashLess(front: string, link: string, slash: string)
    requires |slash| <= 1
    ensures slash != "" ==> (front + (link + slash))[..|front| + |link|] == front + (link + "")
  {
  }

  lemma MergedHasNoNul(path: string, e: Entry)
    requires NUL !in path && IsName(e.name)
    ensures NUL !in Merge(path, LinkOf(e))
  {
    LinksHaveNoNul(e.name);
  }

  lemma {:induction false} LinksHaveNoNul(name: string)
    requires IsName(name)
    ensures NUL !in UrlEscape(name)
    decreases |name|
  {
    if name != "" {
      LinksHaveNoNul(name[1..]);
    }
  }

  /** The list extended by a name is reached exactly if nothing stood in between. */
  lemma ExtendedIff(front: seq<string>, between: seq<string>, name: string)
    ensures front + [name] == front + between + [name] <==> between == []
  {
    if front + [name] == front + between + [name] {
      assert |front + [name]| == |front + between + [name]|;
    }
    if between == [] {
      assert front + between == front;
    }
  }

  /** Among the places below `r`: the entry behind `base` is the entry of what `base` and `tail` lead to. */
  lemma SameEntryIff(r: seq<string>, base: string, tail: string, e: Entry)
    requires IsComponent(e.name) && IsBase(base) && !HasDotDot(base + tail)
    ensures !HasDotDot(base + (e.name + Slash(e)))
    ensures r + Plain(Segments(base + (e.name + Slash(e)))) == r + Plain(Segments(base + tail)) + [e.name]
       <==> Plain(Segments(tail)) == []
  {
    EntrySegments(e);
    SegmentsOfBase(base, e.name + Slash(e));
    SegmentsOfBase(base, tail);
    var front := Plain(BaseSegments(base));
    Assoc(r, front, [e.name]);
    Assoc(r, front, Plain(Segments(tail)));
    ExtendedIff(r + front, Plain(Segments(tail)), e.name);
  }

  lemma LinkDecodesBehind(front: string, base: string, e: Entry, room: nat)
    requires IsName(e.name) && Decode(front, room) == Done(base) && |base| + |e.name + Slash(e)| <= room
    ensures var d := Decode(front + LinkOf(e), room);
            (d.Done? <==> '\\' !in e.name) && (d.Done? ==> d.text == base + (e.name + Slash(e)))
  {
    DecodeAppends(front, LinkOf(e), room);
    LinkTextDecodes(e, room - |base|);
  }

  lemma MergedDecodes(path: string, e: Entry, base: string, room: nat)
    requires NUL !in path && IsName(e.name) && room == FILE_PATH_MAX - 1
    requires BaseLength(path) + |UrlEscape(e.name)| < HttpParser.PATH_MAX && |base| <= BaseLength(path)
    requires Decode(path[..BaseLength(path)], room) == Done(base)
    ensures var d := Decode(Received(Merge(path, LinkOf(e))), room);
            (d.Done? <==> '\\' !in e.name) && (d.Done? ==> d.text == base + (e.name + Slash(AsReceived(path, e))))
  {
    MergedIsReceived(path, e);
    NamesAreShorter(e.name);
    LinkDecodesBehind(path[..BaseLength(path)], base, AsReceived(path, e), room);
  }

  /** The link is not cut inside the name. */
  lemma WholeLinkIff(cwd: seq<string>, root: string, path: string, e: Entry, base: string, tail: string)
    requires NUL !in path && IsName(e.name) && IsComponent(e.name)
    requires BaseLength(path) + |UrlEscape(e.name)| < HttpParser.PATH_MAX
    requires root != "" && IsBase(base) && |base| <= BaseLength(path) && !HasDotDot(base + tail)
    requires Decode(path[..BaseLength(path)], FILE_PATH_MAX - 1) == Done(base)
    ensures var at := Leads(cwd, root, Received(Merge(path, LinkOf(e))));
            var here := Lexical(cwd, root) + Plain(Segments(base + tail));
            at == Some(here + [e.name]) <==>
            '\\' !in e.name && Plain(Segments(tail)) == [] && Fits(root, base + (e.name + Slash(AsReceived(path, e))))
  {
    var e' := AsReceived(path, e);
    MergedDecodes(path, e, base, FILE_PATH_MAX - 1);
    SameEntryIff(Lexical(cwd, root), base, tail, e');
    if '\\' !in e.name {
      LeadsMeans(cwd, root, Received(Merge(path, LinkOf(e))), base + (e'.name + Slash(e')));
    }
  }

  lemma {:induction false} NamesAreShorter(name: string)
    requires IsBytes(name)
    ensures |name| <= |UrlEscape(name)|
    decreases |name|
  {
    if name != "" {
      NamesAreShorter(name[1..]);
    }
  }

  lemma OtherEntry(r: seq<string>, base: string, tail: string, other: string, name: string)
    requires IsBase(base) && '/' !in other && other != name
    ensures r + Plain(Segments(base + other)) != r + Plain(Segments(base + tail)) + [name]
  {
    SegmentsOfBase(base, other);
    SegmentsOfBase(base, tail);
    OneSegment(other);
    OtherName(r, Plain(BaseSegments(base)), Plain(Segments(tail)), other, name);
  }

  lemma FrontIsAnotherName(name: string, u: string, room: nat) returns (other: string)
    requires '/' !in name && name != ""
    requires var d := Decode(u, room); d.Done? ==> |d.text| < |name| && d.text == name[..|d.text|]
    ensures '/' !in other && other != name
    ensures var d := Decode(u, room); d.Done? ==> d.text == other
  {
    var d := Decode(u, room);
    other := if d.Done? then d.text else "";
  }

  lemma DecodesBehind(front: string, base: string, u: string, other: string, room: nat)
    requires Decode(front, room) == Done(base) && |base| <= room
    requires Decode(u, room - |base|).Done? ==> Decode(u, room - |base|).text == other
    ensures Decode(front + u, room).Done? ==> Decode(front + u, room).text == base + other
  {
    DecodeAppends(front, u, room);
  }

  lemma MergedIsCut(path: string, e: Entry, k: nat)
    requires NUL !in path && IsName(e.name) && BaseLength(path) + k + 1 == HttpParser.PATH_MAX
             && k < |UrlEscape(e.name)|
    ensures Received(Merge(path, LinkOf(e))) == path[..BaseLength(path)] + UrlEscape(e.name)[..k]
  {
    MergedHasNoNul(path, e);
    ReceivedIs(Merge(path, LinkOf(e)));
  }

  /** The link is cut inside the name: whatever that leads to, it is not the entry. */
  lemma CutLinkFails(cwd: seq<string>, root: string, path: string, e: Entry, base: string, tail: string)
    requires NUL !in path && IsName(e.name) && IsComponent(e.name)
    requires BaseLength(path) < HttpParser.PATH_MAX <= BaseLength(path) + |UrlEscape(e.name)|
    requires IsBase(base) && Decode(path[..BaseLength(path)], FILE_PATH_MAX - 1) == Done(base)
    ensures var at := Leads(cwd, root, Received(Merge(path, LinkOf(e))));
            at != Some(Lexical(cwd, root) + Plain(Segments(base + tail)) + [e.name])
  {
    var m, n := Received(Merge(path, LinkOf(e))), BaseLength(path);
    var k: nat := HttpParser.PATH_MAX - 1 - n;
    MergedIsCut(path, e, k);
    var u, room := UrlEscape(e.name)[..k], FILE_PATH_MAX - 1;
    DecodedLength(path[..n], room);
    FrontOfLink(e.name, k, room - |base|);
    var other := FrontIsAnotherName(e.name, u, room - |base|);
    DecodesBehind(path[..n], base, u, other, room);
    OtherEntry(Lexical(cwd, root), base, tail, other, e.name);
    if Decode(m, FILE_PATH_MAX - 1).Done? {
      LeadsMeans(cwd, root, m, base + other);
    }
  }

  lemma OtherName(r: seq<string>, front: seq<string>, between: seq<string>, other: string, name: string)
    requires other != name
    ensures r + (front + Plain([other])) != r + (front + between) + [name]
  {
    var a, b := r + (front + Plain([other])), r + (front + between) + [name];
    assert Plain([other]) == [other] || Plain([other]) == [] by {
      assert [other][1..] == [];
    }
    assert |b| >= |r| + |front| + 1 && b[|b| - 1] == name;
    assert |a| == |r| + |front| + 1 ==> a[|a| - 1] == other;
  }

  /** The path of the listing is cut before its last slash: every link leads back to the listing. */
  lemma CutBaseFails(path: string, e: Entry)
    requires NUL !in path && IsName(e.name) && BaseLength(path) >= HttpParser.PATH_MAX
    ensures Received(Merge(path, LinkOf(e))) == Received(path)
  {
    MergedHasNoNul(path, e);
    ReceivedIs(path);
    ReceivedIs(Merge(path, LinkOf(e)));
  }

  /** A client that requested a directory by any path and follows a link of its listing gets to exactly the entry, if
      and only if the link works. */
  lemma LinkLeadsToItsEntryIff(cwd: seq<string>, root: string, path: string, e: Entry)
    requires NUL !in path && IsName(e.name) && IsComponent(e.name) && Leads(cwd, root, Received(path)).Some?
    ensures Leads(cwd, root, Received(Merge(path, LinkOf(e))))
            == Some(Leads(cwd, root, Received(path)).value + [e.name])
       <==> LinkWorks(root, path, e)
  {
    var n, text := BaseLength(path), Decode(Received(path), FILE_PATH_MAX - 1).text;
    LeadsMeans(cwd, root, Received(path), text);
    if n >= HttpParser.PATH_MAX {
      CutBaseFails(path, e);
    } else {
      ReceivedIs(path);
      var base, tail := PathApart(path, Received(path), n, text);
      if n + |UrlEscape(e.name)| < HttpParser.PATH_MAX {
        WholeLinkIff(cwd, root, path, e, base, tail);
      } else {
        CutLinkFails(cwd, root, path, e, base, tail);
      }
    }
  }

  /** A raw segment that section 5.2.4 of RFC 3986 has a client remove from a path it has merged. */
  predicate HasDotSegment(path: string) {
    "." in Segments(path) || ".." in Segments(path)
  }

  lemma SegmentsOfRawBase(path: string, rest: string)
    ensures Segments(path[..BaseLength(path)] + rest) == BaseSegments(path[..BaseLength(path)]) + Segments(rest)
  {
    SegmentsOfBase(path[..BaseLength(path)], rest);
  }

  lemma {:induction false} LinkIsNoDot(name: string)
    requires IsBytes(name)
    ensures UrlEscape(name) == "." ==> name == "."
    ensures UrlEscape(name) == ".." ==> name == ".."
  {
    UnescapeUndoes(name);
    assert Unescape(".") == "." && Unescape("..") == ".." by {
      assert "."[1..] == "" && ".."[1..] == ".";
      assert Unescape("") == "";
    }
  }

  lemma LinkSegments(e: Entry)
    requires IsName(e.name) && '/' !in UrlEscape(e.name)
    ensures Segments(LinkOf(e)) == [UrlEscape(e.name)] + if e.isDirectory then [""] else []
  {
    OneSegment(UrlEscape(e.name));
    OneSegment("");
    if e.isDirectory {
      assert LinkOf(e) == UrlEscape(e.name) + "/" + "";
      SegmentsOfJoin(UrlEscape(e.name), "");
    } else {
      assert LinkOf(e) == UrlEscape(e.name);
    }
  }

  lemma LinkHasNoDots(e: Entry)
    requires IsName(e.name) && IsComponent(e.name)
    ensures !HasDotSegment(LinkOf(e))
  {
    LinksHaveNoDelimiter(e.name);
    LinkIsNoDot(e.name);
    LinkSegments(e);
  }

  /** Below a path without dot segments, the merged path is all there is to resolving a link of a listing: it has none
      either. */
  lemma NoDotsToRemove(path: string, e: Entry)
    requires IsName(e.name) && IsComponent(e.name) && !HasDotSegment(path)
    ensures !HasDotSegment(Merge(path, LinkOf(e)))
  {
    var n, link := BaseLength(path), LinkOf(e);
    CutAtBase(path);
    SegmentsOfRawBase(path, path[n..]);
    SegmentsOfRawBase(path, link);
    LinkHasNoDots(e);
    NoDotsInSum(BaseSegments(path[..n]), Segments(path[n..]), Segments(link));
  }

  lemma CutAtBase(path: string)
    ensures path[..BaseLength(path)] + path[BaseLength(path)..] == path
  {
  }

  lemma NoDotsInSum(front: seq<string>, tail: seq<string>, rest: seq<string>)
    requires "." !in front + tail && ".." !in front + tail && "." !in rest && ".." !in rest
    ensures "." !in front + rest && ".." !in front + rest
  {
    assert forall s :: s in front ==> s in front + tail;
  }

  /** The same for the file that is opened: without symbolic links, what following a link resolves to is the entry if
      and only if the link works; and a link that works is never forbidden unless the document root is "/". */
  lemma LinkOpensItsEntryIff(cwd: seq<string>, root: string, path: string, e: Entry,
                             realpath: string -> RealPath, size: nat)
    requires LinkFree(realpath, cwd) && NUL !in path && IsName(e.name) && IsComponent(e.name)
    requires Resolve(root, Received(path), realpath, size).Resolved?
    ensures var here := Leads(cwd, root, Received(path));
            var answer := Resolve(root, Received(Merge(path, LinkOf(e))), realpath, size);
            && here.Some? && Resolve(root, Received(path), realpath, size).path == Render(here.value)
            && (answer.Resolved? ==> (answer.path == Render(here.value + [e.name]) <==> LinkWorks(root, path, e)))
            && (answer == Rejected(NotAllowed) && LinkWorks(root, path, e) ==> Lexical(cwd, root) == [])
  {
    var target := Received(Merge(path, LinkOf(e)));
    ResolvedIsWhereItLeads(cwd, root, Received(path), realpath, size);
    LinkLeadsToItsEntryIff(cwd, root, path, e);
    var here := Leads(cwd, root, Received(path)).value;
    if Resolve(root, target, realpath, size).Resolved? {
      ResolvedIsWhereItLeads(cwd, root, target, realpath, size);
      if Render(Leads(cwd, root, target).value) == Render(here + [e.name]) {
        RenderIsInjective(Leads(cwd, root, target).value, here + [e.name]);
      }
    }
    if LinkWorks(root, path, e) && Lexical(cwd, root) != [] {
      ForbiddenIff(cwd, root, target, realpath, size);
    }
  }
}
