/** Directory listings, src/files.c:155-205 and 519-597: the page, and a reader who gets the directory back. */
module Listing {
  import opened Prelude
  import opened Text
  import opened Html
  import opened UrlCodec

  datatype Entry = Entry(name: string, isDirectory: bool)

  // --- the entries ---------------------------------------------------------------------------------------

  /** `strcmp(a, b) < 0`: byte order, a proper prefix first. */
  predicate Less(a: string, b: string) {
    b != "" && (a == "" || a[0] < b[0] || (a[0] == b[0] && Less(a[1..], b[1..])))
  }

  lemma {:induction false} LessIsTotal(a: string, b: string)
    ensures Less(a, b) || a == b || Less(b, a)
    ensures !(Less(a, b) && Less(b, a)) && !(Less(a, b) && a == b)
  {
    if a != "" && b != "" {
      LessIsTotal(a[1..], b[1..]);
      assert a == [a[0]] + a[1..] && b == [b[0]] + b[1..];
    }
  }

  /** That at `k` two names differ for the first time, with the smaller byte in the first or the first at its end. */
  predicate ComesFirstAt(a: string, b: string, k: nat) {
    k <= |a| && k < |b| && a[..k] == b[..k] && (k == |a| || a[k] < b[k])
  }

  /** The order is decided where two names differ for the first time. */
  lemma {:induction false} LessIff(a: string, b: string)
    ensures Less(a, b) <==> exists k: nat :: ComesFirstAt(a, b, k)
  {
    if a == "" || b == "" {
      assert b != "" ==> ComesFirstAt(a, b, 0);
    } else if a[0] != b[0] {
      assert a[0] < b[0] ==> ComesFirstAt(a, b, 0);
      assert forall k: nat :: 0 < k && ComesFirstAt(a, b, k) ==> a[..k][0] == b[..k][0];
    } else {
      LessIff(a[1..], b[1..]);
      if k: nat :| ComesFirstAt(a[1..], b[1..], k) {
        assert a[..k + 1] == [a[0]] + a[1..][..k] && b[..k + 1] == [b[0]] + b[1..][..k];
        assert ComesFirstAt(a, b, k + 1);
      }
      if k: nat :| ComesFirstAt(a, b, k) {
        assert k > 0 && a[1..][..k - 1] == a[..k][1..] && b[1..][..k - 1] == b[..k][1..];
        assert ComesFirstAt(a[1..], b[1..], k - 1);
      }
    }
  }

  lemma {:induction false} LessIsTransitive(a: string, b: string, c: string)
    requires Less(a, b) && Less(b, c)
    ensures Less(a, c)
  {
    if a != "" && a[0] == b[0] && b[0] == c[0] {
      LessIsTransitive(a[1..], b[1..], c[1..]);
    }
  }

  predicate BelowAll(name: string, es: seq<Entry>) {
    forall e :: e in es ==> Less(name, e.name)
  }

  /** Each name comes before all later ones. */
  predicate StrictlyOrdered(es: seq<Entry>) {
    es == [] || (BelowAll(es[0].name, es[1..]) && StrictlyOrdered(es[1..]))
  }

  function Names(es: seq<Entry>): (r: set<string>) {
    set e | e in es :: e.name
  }

  /** No file name occurs twice in a directory. */
  predicate Distinct(es: seq<Entry>) {
    es == [] || (es[0].name !in Names(es[1..]) && Distinct(es[1..]))
  }

  function Insert(e: Entry, es: seq<Entry>): (r: seq<Entry>) {
    if es == [] || Less(e.name, es[0].name) then [e] + es else [es[0]] + Insert(e, es[1..])
  }

  /** The entries in the order of their names. */
  function Sort(es: seq<Entry>): (r: seq<Entry>) {
    if es == [] then [] else Insert(es[0], Sort(es[1..]))
  }

  lemma {:induction false} InsertKeeps(e: Entry, es: seq<Entry>)
    ensures multiset(Insert(e, es)) == multiset(es) + multiset{e}
  {
    if es != [] {
      assert es == [es[0]] + es[1..];
      if !Less(e.name, es[0].name) {
        InsertKeeps(e, es[1..]);
      }
    }
  }

  lemma {:induction false} SortKeeps(es: seq<Entry>)
    ensures multiset(Sort(es)) == multiset(es)
  {
    if es != [] {
      SortKeeps(es[1..]);
      InsertKeeps(es[0], Sort(es[1..]));
      assert es == [es[0]] + es[1..];
    }
  }

  lemma InMultiset(es: seq<Entry>, fs: seq<Entry>)
    requires multiset(es) == multiset(fs)
    ensures forall e :: e in es <==> e in fs
  {
    forall e: Entry
      ensures e in es <==> e in fs
    {
      assert e in es <==> e in multiset(es);
      assert e in fs <==> e in multiset(fs);
    }
  }

  lemma {:induction false} InsertOrders(e: Entry, es: seq<Entry>)
    requires StrictlyOrdered(es) && e.name !in Names(es)
    ensures StrictlyOrdered(Insert(e, es))
  {
    if es != [] {
      LessIsTotal(e.name, es[0].name);
      if Less(e.name, es[0].name) {
        forall f | f in es
          ensures Less(e.name, f.name)
        {
          if f != es[0] {
            assert f in es[1..];
            LessIsTransitive(e.name, es[0].name, f.name);
          }
        }
        assert ([e] + es)[1..] == es;
      } else {
        assert e.name != es[0].name by {
          assert es[0] in es;
        }
        assert e.name !in Names(es[1..]) by {
          assert forall f :: f in es[1..] ==> f in es;
        }
        InsertOrders(e, es[1..]);
        InsertKeeps(e, es[1..]);
        var rest := Insert(e, es[1..]);
        assert ([es[0]] + rest)[1..] == rest;
        forall f | f in rest
          ensures Less(es[0].name, f.name)
        {
          assert f in multiset(rest);
          assert f == e || f in es[1..];
        }
      }
    }
  }

  lemma {:induction false} SortOrders(es: seq<Entry>)
    requires Distinct(es)
    ensures StrictlyOrdered(Sort(es))
  {
    if es != [] {
      SortOrders(es[1..]);
      SortKeeps(es[1..]);
      InMultiset(Sort(es[1..]), es[1..]);
      InsertOrders(es[0], Sort(es[1..]));
    }
  }

  /** There is only one strictly ordered arrangement: `qsort` has no choice, whatever its algorithm. */
  lemma {:induction false} OrderIsUnique(es: seq<Entry>, fs: seq<Entry>)
    requires StrictlyOrdered(es) && StrictlyOrdered(fs) && multiset(es) == multiset(fs)
    ensures es == fs
  {
    InMultiset(es, fs);
    if es == [] {
      assert |multiset(fs)| == 0;
    } else {
      assert es[0] in fs;
      assert fs[0] in es;
      assert es == [es[0]] + es[1..] && fs == [fs[0]] + fs[1..];
      if es[0] != fs[0] {
        assert es[0] in fs[1..] && fs[0] in es[1..];
        LessIsTotal(es[0].name, fs[0].name);
        assert false;
      }
      assert multiset(es[1..]) == multiset(es) - multiset{es[0]};
      assert multiset(fs[1..]) == multiset(fs) - multiset{fs[0]};
      OrderIsUnique(es[1..], fs[1..]);
    }
  }

  /** Which entries a listing shows: `readdir` names that do not start with a dot, and whether `stat` says that
      the path of the entry, if it fits, is a directory. */
  function Visible(names: seq<string>, resolved: string, isDirectory: string -> bool): (r: seq<Entry>) {
    if names == [] then []
    else
      var rest := Visible(names[1..], resolved, isDirectory);
      if IsHidden(names[0]) then rest else [EntryOf(names[0], resolved, isDirectory)] + rest
  }

  predicate IsHidden(name: string) {
    name != "" && name[0] == '.'
  }

  function EntryOf(name: string, resolved: string, isDirectory: string -> bool): (r: Entry) {
    var childPath := resolved + "/" + name;
    Entry(name, |childPath| < FILE_PATH_MAX && isDirectory(childPath))
  }

  predicate IsName(name: string) {
    IsBytes(name) && NUL !in name
  }

  predicate AreNames(names: seq<string>) {
    forall name :: name in names ==> IsName(name)
  }

  /** What `readdir` yields: C strings. */
  type NameList = names: seq<string> | AreNames(names) witness []

  predicate AreEntries(es: seq<Entry>) {
    forall e :: e in es ==> IsName(e.name)
  }

  /** That `e` is what a listing shows of a name: nothing that starts with a dot; and a directory if the path of the
      entry fits into 4095 characters and `stat` says so. */
  predicate Shows(e: Entry, name: string, resolved: string, isDirectory: string -> bool) {
    && !("." <= name) && e.name == name
    && (e.isDirectory <==> |resolved| + 1 + |name| <= 4095 && isDirectory(resolved + "/" + name))
  }

  lemma ShowsEntryOf(e: Entry, name: string, resolved: string, isDirectory: string -> bool)
    ensures Shows(e, name, resolved, isDirectory) <==> !IsHidden(name) && e == EntryOf(name, resolved, isDirectory)
  {
    assert "." <= name <==> IsHidden(name);
  }

  lemma {:induction false} VisibleAre(names: seq<string>, resolved: string, isDirectory: string -> bool)
    ensures forall e :: e in Visible(names, resolved, isDirectory) <==>
                        exists name :: name in names && Shows(e, name, resolved, isDirectory)
  {
    if names != [] {
      VisibleAre(names[1..], resolved, isDirectory);
      assert names == [names[0]] + names[1..];
      forall e: Entry
        ensures Shows(e, names[0], resolved, isDirectory) <==>
                !IsHidden(names[0]) && e == EntryOf(names[0], resolved, isDirectory)
      {
        ShowsEntryOf(e, names[0], resolved, isDirectory);
      }
      forall e: Entry
        ensures e in Visible(names, resolved, isDirectory) <==>
                exists name :: name in names && Shows(e, name, resolved, isDirectory)
      {
        InFrontOrRest(e, names, resolved, isDirectory);
        if Shows(e, names[0], resolved, isDirectory) {
          assert names[0] in names;
        }
        forall name | name in names && Shows(e, name, resolved, isDirectory)
          ensures name == names[0] || name in names[1..]
        {
        }
      }
    }
  }

  lemma InFrontOrRest(e: Entry, names: seq<string>, resolved: string, isDirectory: string -> bool)
    requires names != []
    ensures e in Visible(names, resolved, isDirectory) <==>
            (!IsHidden(names[0]) && e == EntryOf(names[0], resolved, isDirectory)) ||
            e in Visible(names[1..], resolved, isDirectory)
  {
  }

  predicate NoDuplicates(names: seq<string>) {
    names == [] || (names[0] !in names[1..] && NoDuplicates(names[1..]))
  }

  lemma {:induction false} VisibleAreDistinct(names: seq<string>, resolved: string, isDirectory: string -> bool)
    requires NoDuplicates(names)
    ensures Distinct(Visible(names, resolved, isDirectory))
  {
    if names != [] {
      VisibleAreDistinct(names[1..], resolved, isDirectory);
      VisibleAre(names[1..], resolved, isDirectory);
      var rest := Visible(names[1..], resolved, isDirectory);
      if !IsHidden(names[0]) {
        var e := EntryOf(names[0], resolved, isDirectory);
        assert ([e] + rest)[1..] == rest;
        assert names[0] !in Names(rest);
      }
    }
  }

  // --- the page --------------------------------------------------------------------------------------------

  const OPEN := "<!doctype html><html><head>" + "<meta charset=\"utf-8\">" + "<title>Index of "
  const HEADING := "</title></head><body><h1>Index of "
  const LIST := "</h1><ul>"
  const ITEM := "<li><a href=\""
  const LABEL := "\">"
  const END_ITEM := "</a></li>"
  const CLOSE := "</ul></body></html>"

  function Slash(e: Entry): (r: string) {
    if e.isDirectory then "/" else ""
  }

  function Row(e: Entry, rest: string): (r: string)
    requires IsName(e.name)
  {
    ITEM + (UrlEscape(e.name) + (Slash(e) + (LABEL + (HtmlEscape(e.name) + (Slash(e) + (END_ITEM + rest))))))
  }

  function Rows(es: seq<Entry>): (r: string)
    requires AreEntries(es)
  {
    if es == [] then CLOSE else Row(es[0], Rows(es[1..]))
  }

  function Page(path: string, es: seq<Entry>): (r: string)
    requires AreEntries(es)
  {
    OPEN + (HtmlEscape(path) + (HEADING + (HtmlEscape(path) + (LIST + Rows(es)))))
  }

  // --- reading it back -----------------------------------------------------------------------------------

  function Skip(word: string, s: string): (r: Option<string>) {
    if word <= s then Some(s[|word|..]) else None
  }

  /** What a link refers to: a trailing slash marks a directory. */
  function ReadLink(link: string): (r: Entry) {
    if link != "" && link[|link| - 1] == '/' then Entry(Unescape(link[..|link| - 1]), true)
    else Entry(Unescape(link), false)
  }

  /** The first row: the link ends at the next quotation mark, the caption at the next tag, and they agree. */
  function ReadRow(s: string): (r: Option<(Entry, string)>)
    ensures r.Some? ==> |r.value.1| < |s|
  {
    match Skip("<li><a href=\"", s)
    case None => None
    case Some(s1) =>
      var link := s1[..IndexOf(s1, '"')];
      match Skip("\">", s1[|link|..])
      case None => None
      case Some(s2) =>
        var caption := s2[..IndexOf(s2, '<')];
        var e := ReadLink(link);
        match Skip("</a></li>", s2[|caption|..])
        case None => None
        case Some(rest) => if HtmlUnescape(caption) == e.name + Slash(e) then Some((e, rest)) else None
  }

  function ReadRows(s: string): (r: Option<seq<Entry>>)
    decreases |s|
  {
    if s == CLOSE then Some([])
    else
      match ReadRow(s)
      case None => None
      case Some((e, rest)) =>
        match ReadRows(rest)
        case None => None
        case Some(es) => Some([e] + es)
  }

  /** The path in the title, which the heading repeats, and the entries. */
  function ReadPage(s: string): (r: Option<(string, seq<Entry>)>) {
    match Skip(OPEN, s)
    case None => None
    case Some(s1) =>
      var title := s1[..IndexOf(s1, '<')];
      match Skip(HEADING, s1[|title|..])
      case None => None
      case Some(s2) =>
        var heading := s2[..IndexOf(s2, '<')];
        match Skip(LIST, s2[|heading|..])
        case None => None
        case Some(s3) =>
          match ReadRows(s3)
          case None => None
          case Some(es) => if title == heading then Some((HtmlUnescape(title), es)) else None
  }

  lemma SkipWord(word: string, rest: string)
    ensures Skip(word, word + rest) == Some(rest)
  {
    Cut(word, rest);
  }

  lemma UpTo(text: string, c: char, word: string, rest: string)
    requires c !in text && word != "" && word[0] == c
    ensures var s := text + (word + rest);
            IndexOf(s, c) == |text| && s[..|text|] == text && s[|text|..] == word + rest
  {
    var s := text + (word + rest);
    Cut(text, word + rest);
    assert s[|text|] == c;
  }

  lemma LinkReads(e: Entry)
    requires IsName(e.name)
    ensures ReadLink(UrlEscape(e.name) + Slash(e)) == e
    ensures '"' !in UrlEscape(e.name) + Slash(e)
  {
    LinksHaveNoDelimiter(e.name);
    UnescapeUndoes(e.name);
    Cut(UrlEscape(e.name), Slash(e));
    if !e.isDirectory {
      assert UrlEscape(e.name) + "" == UrlEscape(e.name);
    }
  }

  lemma LabelReads(name: string, slash: string)
    requires slash == "" || slash == "/"
    ensures HtmlUnescape(HtmlEscape(name) + slash) == name + slash
    ensures '<' !in HtmlEscape(name) + slash
  {
    EscapedHasNoDelimiter(name);
    EscapeAppends(name, slash);
    assert HtmlEscape(slash) == slash by {
      assert slash == "/" ==> EscapeChar(slash[0]) + HtmlEscape("") == slash;
    }
    HtmlRoundTrip(name + slash);
  }

  lemma {:induction false} EscapeAppends(a: string, b: string)
    ensures HtmlEscape(a + b) == HtmlEscape(a) + HtmlEscape(b)
  {
    if a == "" {
      assert a + b == b;
    } else {
      assert (a + b)[1..] == a[1..] + b;
      EscapeAppends(a[1..], b);
      Assoc(EscapeChar(a[0]), HtmlEscape(a[1..]), HtmlEscape(b));
    }
  }

  lemma RowReads(e: Entry, rest: string)
    requires IsName(e.name)
    ensures ReadRow(Row(e, rest)) == Some((e, rest))
  {
    var link := UrlEscape(e.name) + Slash(e);
    var caption := HtmlEscape(e.name) + Slash(e);
    var s2 := caption + (END_ITEM + rest);
    Assoc(HtmlEscape(e.name), Slash(e), END_ITEM + rest);
    var s1 := link + (LABEL + s2);
    Assoc(UrlEscape(e.name), Slash(e), LABEL + s2);
    assert Row(e, rest) == ITEM + s1;
    SkipWord(ITEM, s1);
    LinkReads(e);
    UpTo(link, '"', LABEL, s2);
    SkipWord(LABEL, s2);
    LabelReads(e.name, Slash(e));
    UpTo(caption, '<', END_ITEM, rest);
    SkipWord(END_ITEM, rest);
  }

  lemma RowStartsAnItem(e: Entry, rest: string)
    requires IsName(e.name)
    ensures Row(e, rest) != CLOSE
  {
    var after := UrlEscape(e.name) + (Slash(e) + (LABEL + (HtmlEscape(e.name) + (Slash(e) + (END_ITEM + rest)))));
    assert (ITEM + after)[1] == 'l' && CLOSE[1] == '/';
  }

  lemma ReadRowsStep(s: string, e: Entry, rest: string, es: seq<Entry>)
    requires s != CLOSE && ReadRow(s) == Some((e, rest)) && ReadRows(rest) == Some(es)
    ensures ReadRows(s) == Some([e] + es)
  {
  }

  lemma OneRowMore(e: Entry, rest: string, es: seq<Entry>)
    requires IsName(e.name) && ReadRows(rest) == Some(es)
    ensures ReadRows(Row(e, rest)) == Some([e] + es)
  {
    RowReads(e, rest);
    RowStartsAnItem(e, rest);
    ReadRowsStep(Row(e, rest), e, rest, es);
  }

  lemma {:induction false} RowsRead(es: seq<Entry>)
    requires AreEntries(es)
    ensures ReadRows(Rows(es)) == Some(es)
  {
    if es != [] {
      RowsRead(es[1..]);
      OneRowMore(es[0], Rows(es[1..]), es[1..]);
      assert [es[0]] + es[1..] == es;
    }
  }

  /** A reader gets back the path and every entry, whatever characters they contain. */
  lemma PageReadsBack(path: string, es: seq<Entry>)
    requires AreEntries(es)
    ensures ReadPage(Page(path, es)) == Some((path, es))
  {
    var text := HtmlEscape(path);
    var s3 := Rows(es);
    var s2 := text + (LIST + s3);
    var s1 := text + (HEADING + s2);
    EscapedHasNoDelimiter(path);
    SkipWord(OPEN, s1);
    UpTo(text, '<', HEADING, s2);
    SkipWord(HEADING, s2);
    UpTo(text, '<', LIST, s3);
    SkipWord(LIST, s3);
    RowsRead(es);
    HtmlRoundTrip(path);
  }
}
