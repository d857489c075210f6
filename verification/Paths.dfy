/** From request paths to files, src/files.c:260-281 and 423-479: nothing outside the document root is served. */
module Paths {
  import opened Prelude
  import opened Text
  import opened UrlCodec

  // --- segments --------------------------------------------------------------------------------------------

  /** What stands between the slashes. */
  function Segments(s: string): (segs: seq<string>)
    ensures segs != []
    decreases |s|
  {
    var i := IndexOf(s, '/');
    if i == |s| then [s] else [s[..i]] + Segments(s[i + 1..])
  }

  lemma IndexIs(s: string, c: char, i: nat)
    requires i <= |s| && c !in s[..i] && (i < |s| ==> s[i] == c)
    ensures IndexOf(s, c) == i
  {
    assert forall j :: 0 <= j < i ==> s[j] in s[..i];
  }

  predicate HasDotDot(s: string) {
    ".." in Segments(s)
  }

  lemma SlashPassed(path: string, p: nat)
    requires p < |path| && path[p] == '/'
    ensures HasDotDot(path[p..]) <==> HasDotDot(path[p + 1..])
  {
    IndexIs(path[p..], '/', 0);
    assert path[p..][1..] == path[p + 1..];
  }

  lemma SegmentPassed(path: string, p: nat, q: nat)
    requires p <= q <= |path| && '/' !in path[p..q] && (q < |path| ==> path[q] == '/')
    ensures HasDotDot(path[p..]) <==> path[p..q] == ".." || HasDotDot(path[q..])
  {
    var s := path[p..];
    assert s[..q - p] == path[p..q] && s[q - p..] == path[q..];
    IndexIs(s, '/', q - p);
    if q < |path| {
      SlashPassed(path, q);
      assert s[q - p + 1..] == path[q + 1..];
    } else {
      assert path[p..q] == s && path[q..] == "";
    }
  }

  predicate DotDotAt(path: string, p: nat) {
    p + 1 < |path| && path[p] == '.' && path[p + 1] == '.' && (p + 2 == |path| || path[p + 2] == '/')
  }

  lemma DotDotFound(path: string, p: nat)
    requires DotDotAt(path, p)
    ensures HasDotDot(path[p..])
  {
    assert path[p..p + 2] == "..";
    SegmentPassed(path, p, p + 2);
  }

  lemma OtherSegmentPassed(path: string, p: nat, q: nat)
    requires p <= q <= |path| && '/' !in path[p..q] && (q < |path| ==> path[q] == '/') && !DotDotAt(path, p)
    ensures HasDotDot(path[p..]) <==> HasDotDot(path[q..])
  {
    var s := path[p..q];
    assert |s| == 2 ==> s[0] == path[p] && s[1] == path[p + 1];
    SegmentPassed(path, p, q);
  }

  lemma NoSlashYet(path: string, start: nat, p: nat)
    requires start <= p < |path| && '/' !in path[start..p] && path[p] != '/'
    ensures '/' !in path[start..p + 1]
  {
    assert path[start..p + 1] == path[start..p] + [path[p]];
  }

  /** The loop at src/files.c:263-265. */
  method SkipSlashes(path: string, from: nat) returns (p: nat)
    requires from <= |path|
    ensures from <= p <= |path| && (p < |path| ==> path[p] != '/')
    ensures HasDotDot(path[from..]) <==> HasDotDot(path[p..])
  {
    p := from;
    while p < |path| && path[p] == '/'
      invariant from <= p <= |path|
      invariant HasDotDot(path[from..]) <==> HasDotDot(path[p..])
    {
      SlashPassed(path, p);
      p := p + 1;
    }
  }

  /** The loop at src/files.c:270-272. */
  method SkipSegment(path: string, from: nat) returns (p: nat)
    requires from <= |path|
    ensures from <= p <= |path| && '/' !in path[from..p] && (p < |path| ==> path[p] == '/')
  {
    p := from;
    while p < |path| && path[p] != '/'
      invariant from <= p <= |path| && '/' !in path[from..p]
    {
      NoSlashYet(path, from, p);
      p := p + 1;
    }
  }

  /** `contains_dot_dot_segment`, src/files.c:260-275. */
  method ContainsDotDotSegment(path: string) returns (found: bool)
    requires NUL !in path
    ensures found <==> HasDotDot(path)
  {
    var p := 0;
    assert path[0..] == path;
    while p < |path|
      invariant p <= |path|
      invariant HasDotDot(path) <==> HasDotDot(path[p..])
      decreases |path| - p
    {
      var start := SkipSlashes(path, p);
      if DotDotAt(path, start) {
        DotDotFound(path, start);
        return true;
      }
      var next := SkipSegment(path, start);
      OtherSegmentPassed(path, start, next);
      p := next;
    }
    NothingLeft(path[p..]);
    found := false;
  }

  lemma NothingLeft(s: string)
    requires s == ""
    ensures !HasDotDot(s)
  {
  }

  // --- names of files ------------------------------------------------------------------------------------

  predicate IsComponent(c: string) {
    c != "" && c != "." && c != ".." && '/' !in c
  }

  predicate AreComponents(cs: seq<string>) {
    forall c :: c in cs ==> IsComponent(c)
  }

  function Joined(cs: seq<string>): (r: string) {
    if cs == [] then "" else "/" + cs[0] + Joined(cs[1..])
  }

  /** The canonical absolute path of a file, as `realpath` writes it. */
  function Render(cs: seq<string>): (r: string) {
    if cs == [] then "/" else Joined(cs)
  }

  /** `path_has_prefix`, src/files.c:277-281. */
  predicate HasPrefix(path: string, prefix: string) {
    prefix <= path && (|path| == |prefix| || path[|prefix|] == '/')
  }

  lemma JoinedStartsWithSlash(cs: seq<string>)
    ensures if cs == [] then Joined(cs) == "" else Joined(cs) != "" && Joined(cs)[0] == '/'
  {
  }

  /** Two component lists with the same first component. */
  lemma PrefixCancels(front: string, path: string, prefix: string)
    ensures HasPrefix(front + path, front + prefix) <==> HasPrefix(path, prefix)
  {
    if prefix <= path {
      assert front + path == front + prefix + path[|prefix|..];
    }
    if front + prefix <= front + path {
      assert (front + path)[|front|..] == path;
      assert (front + prefix) == (front + path)[..|front + prefix|];
      assert prefix == path[..|prefix|];
    }
  }

  /** Different first components: the path does not have the prefix, for one of the two ends with the other going on. */
  lemma PrefixDiffers(d: string, c: string, path: string, prefix: string)
    requires '/' !in d && '/' !in c && d != c
    requires (path == "" || path[0] == '/') && (prefix == "" || prefix[0] == '/')
    ensures !HasPrefix("/" + d + path, "/" + c + prefix)
  {
    var p, q := "/" + d + path, "/" + c + prefix;
    assert p[1..1 + |d|] == d && q[1..1 + |c|] == c;
    assert path != "" ==> p[1 + |d|] == '/';
    assert prefix != "" ==> q[1 + |c|] == '/';
    if |d| < |c| {
      assert q[1 + |d|] == c[|d|];
    } else if |c| < |d| {
      assert p[1 + |c|] == d[|c|];
    } else {
      assert p[1..1 + |c|] != q[1..1 + |c|];
    }
  }

  lemma {:induction false} PrefixIsComponentwise(p: seq<string>, r: seq<string>)
    requires AreComponents(p) && AreComponents(r)
    ensures HasPrefix(Joined(p), Joined(r)) <==> r <= p
  {
    JoinedStartsWithSlash(p);
    JoinedStartsWithSlash(r);
    if p != [] && r != [] {
      var path, prefix := Joined(p[1..]), Joined(r[1..]);
      JoinedStartsWithSlash(p[1..]);
      JoinedStartsWithSlash(r[1..]);
      assert p == [p[0]] + p[1..] && r == [r[0]] + r[1..];
      assert p[0] in p && r[0] in r;
      if p[0] == r[0] {
        PrefixCancels("/" + p[0], path, prefix);
        PrefixIsComponentwise(p[1..], r[1..]);
        assert r <= p <==> r[1..] <= p[1..];
      } else {
        PrefixDiffers(p[0], r[0], path, prefix);
      }
    }
  }

  /** The prefix test means being below the root, except that below "/" it finds nothing but "/" itself. */
  lemma PrefixMeansBelow(p: seq<string>, r: seq<string>)
    requires AreComponents(p) && AreComponents(r)
    ensures HasPrefix(Render(p), Render(r)) <==> if r == [] then p == [] else r <= p
  {
    PrefixIsComponentwise(p, r);
    JoinedStartsWithSlash(p);
    JoinedStartsWithSlash(r);
    if p == [] && r != [] {
      assert r[0] in r;
      assert Joined(r)[1] == r[0][0];
    }
    if r == [] && p != [] {
      assert p[0] in p;
      assert Joined(p)[1] == p[0][0];
    }
  }

  // --- resolution without symbolic links ---------------------------------------------------------------------

  function Enter(at: seq<string>, seg: string): (r: seq<string>) {
    if seg == "" || seg == "." then at
    else if seg == ".." then if at == [] then [] else at[..|at| - 1]
    else at + [seg]
  }

  function Walk(at: seq<string>, segs: seq<string>): (r: seq<string>)
    decreases |segs|
  {
    if segs == [] then at else Walk(Enter(at, segs[0]), segs[1..])
  }

  /** Where a path leads from the directory `cwd` if there are no symbolic links. */
  function Lexical(cwd: seq<string>, path: string): (r: seq<string>) {
    Walk(if path != "" && path[0] == '/' then [] else cwd, Segments(path))
  }

  /** The segments that name something. */
  function Plain(segs: seq<string>): (r: seq<string>) {
    if segs == [] then []
    else if segs[0] == "" || segs[0] == "." then Plain(segs[1..])
    else [segs[0]] + Plain(segs[1..])
  }

  lemma {:induction false} WalkAppends(at: seq<string>, a: seq<string>, b: seq<string>)
    ensures Walk(at, a + b) == Walk(Walk(at, a), b)
    decreases |a|
  {
    if a == [] {
      assert a + b == b;
    } else {
      assert (a + b)[1..] == a[1..] + b;
      WalkAppends(Enter(at, a[0]), a[1..], b);
    }
  }

  /** Without "..", walking only descends. */
  lemma {:induction false} WalkDescends(at: seq<string>, segs: seq<string>)
    requires ".." !in segs
    ensures Walk(at, segs) == at + Plain(segs)
    decreases |segs|
  {
    if segs == [] {
      assert at + [] == at;
    } else {
      WalkDescends(Enter(at, segs[0]), segs[1..]);
      Assoc(at, [segs[0]], Plain(segs[1..]));
    }
  }

  lemma {:induction false} SegmentsHaveNoSlash(s: string)
    ensures forall seg :: seg in Segments(s) ==> '/' !in seg
    decreases |s|
  {
    var i := IndexOf(s, '/');
    if i < |s| {
      SegmentsHaveNoSlash(s[i + 1..]);
    }
  }

  lemma {:induction false} PlainAreComponents(segs: seq<string>)
    requires ".." !in segs && forall seg :: seg in segs ==> '/' !in seg
    ensures AreComponents(Plain(segs))
  {
    if segs != [] {
      PlainAreComponents(segs[1..]);
    }
  }

  lemma {:induction false} WalkIsCanonical(at: seq<string>, segs: seq<string>)
    requires AreComponents(at) && forall seg :: seg in segs ==> '/' !in seg
    ensures AreComponents(Walk(at, segs))
    decreases |segs|
  {
    if segs != [] {
      WalkIsCanonical(Enter(at, segs[0]), segs[1..]);
    }
  }

  lemma FirstSegment(first: string, rest: string)
    requires '/' !in first
    ensures Segments(first + "/" + rest) == [first] + Segments(rest)
  {
    var s := first + "/" + rest;
    assert s[..|first|] == first && s[|first|] == '/' && s[|first| + 1..] == rest;
    IndexIs(s, '/', |first|);
  }

  lemma {:induction false} SegmentsOfJoin(a: string, b: string)
    ensures Segments(a + "/" + b) == Segments(a) + Segments(b)
    decreases |a|
  {
    var i := IndexOf(a, '/');
    if i == |a| {
      FirstSegment(a, b);
    } else {
      var first, rest := a[..i], a[i + 1..];
      assert a == first + "/" + rest;
      assert a + "/" + b == first + "/" + (rest + "/" + b);
      FirstSegment(first, rest + "/" + b);
      FirstSegment(first, rest);
      SegmentsOfJoin(rest, b);
      Assoc([first], Segments(rest), Segments(b));
    }
  }

  /** `relative_path`, src/files.c:446-449. */
  function Relative(path: string): (r: string) {
    if path != "" && path[0] == '/' then Relative(path[1..]) else path
  }

  lemma {:induction false} RelativeKeeps(path: string)
    ensures Plain(Segments(Relative(path))) == Plain(Segments(path))
    ensures HasDotDot(Relative(path)) <==> HasDotDot(path)
  {
    if path != "" && path[0] == '/' {
      IndexIs(path, '/', 0);
      RelativeKeeps(path[1..]);
      assert Segments(path) == [""] + Segments(path[1..]);
      assert ([""] + Segments(path[1..]))[1..] == Segments(path[1..]);
    }
  }

  /** A request path without ".." leads to the root extended by its segments. */
  lemma LeadsBelowRoot(cwd: seq<string>, root: string, path: string)
    requires root != "" && !HasDotDot(path)
    ensures Lexical(cwd, root + "/" + Relative(path)) == Lexical(cwd, root) + Plain(Segments(path))
  {
    var rest := Relative(path);
    var joined := root + "/" + rest;
    assert joined[0] == root[0];
    SegmentsOfJoin(root, rest);
    var at := if root[0] == '/' then [] else cwd;
    WalkAppends(at, Segments(root), Segments(rest));
    RelativeKeeps(path);
    WalkDescends(Walk(at, Segments(root)), Segments(rest));
  }

  // --- file_resolve_path ---------------------------------------------------------------------------------------

  /** What `realpath` says: a canonical path; that there is no such file; or another error. */
  datatype RealPath = Real(path: string) | Absent | Broken

  datatype Resolution = Resolved(path: string) | Rejected(result: FileResult)

  /** `file_resolve_path`, src/files.c:423-479, into a buffer of `size` characters. */
  function Resolve(root: string, request: string, realpath: string -> RealPath, size: nat): (r: Resolution) {
    if size == 0 then Rejected(Error)
    else
      match Decode(request, FILE_PATH_MAX - 1)
      case Forbidden => Rejected(NotAllowed)
      case TooLong => Rejected(Error)
      case Done(text) => if HasDotDot(text) then Rejected(NotAllowed) else Locate(root, text, realpath, size)
  }

  /** The part after the checks on the text, src/files.c:446-478. */
  function Locate(root: string, text: string, realpath: string -> RealPath, size: nat): (r: Resolution) {
    var joined := root + "/" + Relative(text);
    if |joined| >= FILE_PATH_MAX then Rejected(Error)
    else if !realpath(root).Real? then Rejected(Error)
    else
      match realpath(joined)
      case Absent => Rejected(NotFound)
      case Broken => Rejected(Error)
      case Real(target) =>
        if !HasPrefix(target, realpath(root).path) then Rejected(NotAllowed)
        else if |target| >= size then Rejected(Error)
        else Resolved(target)
  }

  lemma ReadsAs(buffer: string, text: string)
    requires |text| < |buffer| && buffer[..|text|] == text && buffer[|text|] == NUL && NUL !in text
    ensures CString(buffer) == text
  {
    IndexIs(buffer, NUL, |text|);
  }

  /** The first step of `file_resolve_path`, src/files.c:436-439: what `decoded` holds after `decode_path`. */
  method DecodeRequest(request: string) returns (result: FileResult, decoded: string)
    requires NUL !in request
    ensures NUL !in decoded
    ensures match Decode(request, FILE_PATH_MAX - 1)
            case Done(text) => result == Ok && decoded == text
            case Forbidden => result == NotAllowed
            case TooLong => result == Error
  {
    var buffer := new char[FILE_PATH_MAX];
    result := DecodePath(request, buffer);
    decoded := CString(buffer[..]);
    DecodedIsClean(request, FILE_PATH_MAX - 1);
    if result == Ok {
      ReadsAs(buffer[..], Decode(request, FILE_PATH_MAX - 1).text);
    }
  }

  /** `file_resolve_path`, src/files.c:423-479. */
  method ResolvePath(docRoot: string, request: string, realpath: string -> RealPath, resolved: array<char>)
    returns (result: FileResult)
    requires NUL !in request
    modifies resolved
    ensures match Resolve(docRoot, request, realpath, resolved.Length)
            case Resolved(path) =>
              result == Ok && |path| < resolved.Length && resolved[..|path|] == path && resolved[|path|] == NUL
            case Rejected(why) => result == why && result != Ok
  {
    if resolved.Length == 0 {
      return Error;
    }
    var decoded;
    result, decoded := DecodeRequest(request);
    if result != Ok {
      return;
    }
    var found := ContainsDotDotSegment(decoded);
    if found {
      return NotAllowed;
    }
    var start := 0;
    while start < |decoded| && decoded[start] == '/'
      invariant start <= |decoded| && Relative(decoded[start..]) == Relative(decoded)
    {
      assert decoded[start..][1..] == decoded[start + 1..];
      start := start + 1;
    }
    assert decoded[start..] == Relative(decoded);
    var joined := docRoot + "/" + decoded[start..];
    if |joined| >= FILE_PATH_MAX {
      return Error;
    }
    var rootReal, targetReal := realpath(docRoot), realpath(joined);
    if !rootReal.Real? {
      return Error;
    }
    if !targetReal.Real? {
      return if targetReal == Absent then NotFound else Error;
    }
    var target := targetReal.path;
    if !HasPrefix(target, rootReal.path) {
      return NotAllowed;
    }
    if |target| >= resolved.Length {
      return Error;
    }
    forall i | 0 <= i < |target| {
      resolved[i] := target[i];
    }
    resolved[|target|] := NUL;
    result := Ok;
  }

  // --- what it is for ----------------------------------------------------------------------------------------

  /** `realpath` yields canonical paths; symbolic links may lead it anywhere. */
  ghost predicate Canonical(realpath: string -> RealPath) {
    forall s :: realpath(s).Real? ==> exists cs :: AreComponents(cs) && realpath(s).path == Render(cs)
  }

  /** Whatever links the tree contains, only files at or below the root are served. */
  lemma NothingOutsideIsServed(root: string, r: seq<string>, request: string, realpath: string -> RealPath, size: nat)
    requires Canonical(realpath) && AreComponents(r) && realpath(root) == Real(Render(r))
    requires Resolve(root, request, realpath, size).Resolved?
    ensures exists p :: AreComponents(p) && r <= p && Resolve(root, request, realpath, size).path == Render(p)
  {
    var text := Decode(request, FILE_PATH_MAX - 1).text;
    var joined := root + "/" + Relative(text);
    var p :| AreComponents(p) && realpath(joined).path == Render(p);
    PrefixMeansBelow(p, r);
    assert r <= p;
  }

  /** No symbolic links: `realpath`, where it succeeds, is the lexical reading of a nonempty path. */
  ghost predicate LinkFree(realpath: string -> RealPath, cwd: seq<string>) {
    && AreComponents(cwd)
    && forall s :: realpath(s).Real? ==> s != "" && realpath(s).path == Render(Lexical(cwd, s))
  }

  /** Without links, what `realpath` makes of the joined path, and whether it passes the last check. */
  lemma TargetIs(cwd: seq<string>, root: string, text: string, realpath: string -> RealPath)
    requires LinkFree(realpath, cwd) && !HasDotDot(text)
    requires realpath(root).Real? && realpath(root + "/" + Relative(text)).Real?
    ensures var r, plain := Lexical(cwd, root), Plain(Segments(text));
            var target := realpath(root + "/" + Relative(text)).path;
            target == Render(r + plain) && (HasPrefix(target, realpath(root).path) <==> r != [] || plain == [])
  {
    var r, plain := Lexical(cwd, root), Plain(Segments(text));
    LeadsBelowRoot(cwd, root, text);
    SegmentsHaveNoSlash(root);
    SegmentsHaveNoSlash(text);
    WalkIsCanonical(if root[0] == '/' then [] else cwd, Segments(root));
    PlainAreComponents(Segments(text));
    PrefixMeansBelow(r + plain, r);
  }

  /** Without links, a request that passes the checks on its text gets the root extended by its segments; the
      last check rejects it exactly if the root is "/" and the request is for something below it. */
  lemma LastCheckRejectsIff(cwd: seq<string>, root: string, text: string, realpath: string -> RealPath, size: nat)
    requires LinkFree(realpath, cwd) && !HasDotDot(text)
    ensures var r, plain := Lexical(cwd, root), Plain(Segments(text));
            var joined := root + "/" + Relative(text);
            var answer := Locate(root, text, realpath, size);
            && (answer == Rejected(NotAllowed) <==>
                |joined| < FILE_PATH_MAX && realpath(root).Real? && realpath(joined).Real? && r == [] && plain != [])
            && (answer.Resolved? ==> answer.path == Render(r + plain))
  {
    if realpath(root).Real? && realpath(root + "/" + Relative(text)).Real? {
      TargetIs(cwd, root, text, realpath);
    }
  }

  /** Without links, a request is resolved exactly if it decodes, has no "..", fits below the root, both paths exist,
      the root is not "/" unless it is asked for itself, and the result fits. */
  lemma ResolvedIff(cwd: seq<string>, root: string, request: string, realpath: string -> RealPath, size: nat)
    requires LinkFree(realpath, cwd)
    ensures Resolve(root, request, realpath, size).Resolved? <==>
            match Decode(request, FILE_PATH_MAX - 1)
            case Done(text) =>
              var r, plain, joined := Lexical(cwd, root), Plain(Segments(text)), root + "/" + Relative(text);
              && size > 0 && !HasDotDot(text) && |joined| < FILE_PATH_MAX
              && realpath(root).Real? && realpath(joined).Real?
              && (r != [] || plain == []) && |Render(r + plain)| < size
            case _ => false
  {
    var d := Decode(request, FILE_PATH_MAX - 1);
    if d.Done? && !HasDotDot(d.text) && realpath(root).Real? && realpath(root + "/" + Relative(d.text)).Real? {
      TargetIs(cwd, root, d.text, realpath);
    }
  }

  /** Without links and under any root but "/", a request is forbidden exactly for what its text contains. */
  lemma ForbiddenIff(cwd: seq<string>, root: string, request: string, realpath: string -> RealPath, size: nat)
    requires LinkFree(realpath, cwd) && Lexical(cwd, root) != []
    ensures Resolve(root, request, realpath, size) == Rejected(NotAllowed) <==>
            var d := Decode(request, FILE_PATH_MAX - 1);
            size > 0 && (d.Forbidden? || (d.Done? && HasDotDot(d.text)))
  {
    var d := Decode(request, FILE_PATH_MAX - 1);
    if d.Done? && !HasDotDot(d.text) {
      LastCheckRejectsIff(cwd, root, d.text, realpath, size);
    }
  }
}
