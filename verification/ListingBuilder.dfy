/** `file_build_directory_listing`, src/files.c:519-597. */
module ListingBuilder {
  import opened Prelude
  import opened Text
  import opened Html
  import opened UrlCodec
  import opened StringBuilder
  import opened Listing

  /** `builder_append_text` as a step from a page whose next piece is `text` to one whose next piece is `rest`. */
  method WriteText(b: Builder, text: string, ghost rest: string, ghost page: string) returns (ok: bool)
    requires b.Settled() && |text| <= SIZE_MAX && NUL !in text && b.Text() + (text + rest) == page
    modifies b, b.data
    ensures b.Settled() && (b.data == old(b.data) || fresh(b.data))
    ensures if ok then b.Text() + rest == page && b.refused == old(b.refused) else b.refused || |page| + 1 > SIZE_MAX
  {
    Assoc(b.Text(), text, rest);
    ok := b.AppendText(text);
  }

  /** The same for `builder_append_html_escaped`. */
  method WriteEscaped(b: Builder, text: string, ghost rest: string, ghost page: string) returns (ok: bool)
    requires b.Settled() && NUL !in text && b.Text() + (HtmlEscape(text) + rest) == page
    modifies b, b.data
    ensures b.Settled() && (b.data == old(b.data) || fresh(b.data))
    ensures if ok then b.Text() + rest == page && b.refused == old(b.refused) else b.refused || |page| + 1 > SIZE_MAX
  {
    Assoc(b.Text(), HtmlEscape(text), rest);
    ok := b.AppendHtmlEscaped(text);
  }

  /** The same for `builder_append_url_escaped`. */
  method WriteLink(b: Builder, text: string, ghost rest: string, ghost page: string) returns (ok: bool)
    requires b.Settled() && IsName(text) && b.Text() + (UrlEscape(text) + rest) == page
    modifies b, b.data
    ensures b.Settled() && (b.data == old(b.data) || fresh(b.data))
    ensures if ok then b.Text() + rest == page && b.refused == old(b.refused) else b.refused || |page| + 1 > SIZE_MAX
  {
    Assoc(b.Text(), UrlEscape(text), rest);
    ok := b.AppendUrlEscaped(text);
  }

  /** `entries[i].is_directory && !builder_append_char(&builder, '/')`. */
  method WriteSlash(b: Builder, e: Entry, ghost rest: string, ghost page: string) returns (ok: bool)
    requires b.Settled() && b.Text() + (Slash(e) + rest) == page
    modifies b, b.data
    ensures b.Settled() && (b.data == old(b.data) || fresh(b.data))
    ensures if ok then b.Text() + rest == page && b.refused == old(b.refused) else b.refused || |page| + 1 > SIZE_MAX
  {
    Assoc(b.Text(), Slash(e), rest);
    ok := true;
    if e.isDirectory {
      ok := b.AppendChar('/');
    }
  }

  /** Constant text, then escaped text, then constant text, as src/files.c:563-565 has it. */
  method WriteBetween(b: Builder, before: string, text: string, after: string, ghost rest: string, ghost page: string)
    returns (ok: bool)
    requires b.Settled() && |before| <= SIZE_MAX && |after| <= SIZE_MAX && NUL !in before && NUL !in text
             && NUL !in after
    requires b.Text() + (before + (HtmlEscape(text) + (after + rest))) == page
    modifies b, b.data
    ensures b.Settled() && (b.data == old(b.data) || fresh(b.data))
    ensures if ok then b.Text() + rest == page && b.refused == old(b.refused) else b.refused || |page| + 1 > SIZE_MAX
  {
    ghost var r2 := after + rest;
    ghost var r1 := HtmlEscape(text) + r2;
    ok := WriteText(b, before, r1, page);
    if ok {
      ok := WriteEscaped(b, text, r2, page);
    }
    if ok {
      ok := WriteText(b, after, rest, page);
    }
  }

  /** The link of a row, src/files.c:574-576. */
  method WriteAnchor(b: Builder, e: Entry, ghost rest: string, ghost page: string) returns (ok: bool)
    requires b.Settled() && IsName(e.name)
    requires b.Text() + (ITEM + (UrlEscape(e.name) + (Slash(e) + rest))) == page
    modifies b, b.data
    ensures b.Settled() && (b.data == old(b.data) || fresh(b.data))
    ensures if ok then b.Text() + rest == page && b.refused == old(b.refused) else b.refused || |page| + 1 > SIZE_MAX
  {
    ghost var r2 := Slash(e) + rest;
    ghost var r1 := UrlEscape(e.name) + r2;
    ok := WriteText(b, ITEM, r1, page);
    if ok {
      ok := WriteLink(b, e.name, r2, page);
    }
    if ok {
      ok := WriteSlash(b, e, rest, page);
    }
  }

  /** The caption of a row, src/files.c:577-580. */
  method WriteCaption(b: Builder, e: Entry, ghost rest: string, ghost page: string) returns (ok: bool)
    requires b.Settled() && IsName(e.name)
    requires b.Text() + (LABEL + (HtmlEscape(e.name) + (Slash(e) + (END_ITEM + rest)))) == page
    modifies b, b.data
    ensures b.Settled() && (b.data == old(b.data) || fresh(b.data))
    ensures if ok then b.Text() + rest == page && b.refused == old(b.refused) else b.refused || |page| + 1 > SIZE_MAX
  {
    ghost var r3 := END_ITEM + rest;
    ghost var r2 := Slash(e) + r3;
    ghost var r1 := HtmlEscape(e.name) + r2;
    ok := WriteText(b, LABEL, r1, page);
    if ok {
      ok := WriteEscaped(b, e.name, r2, page);
    }
    if ok {
      ok := WriteSlash(b, e, r3, page);
    }
    if ok {
      ok := WriteText(b, END_ITEM, rest, page);
    }
  }

  /** The rows and the end of the page, src/files.c:573-592. */
  method WriteRows(b: Builder, entries: seq<Entry>, ghost page: string) returns (ok: bool)
    requires b.Settled() && AreEntries(entries) && b.Text() + Rows(entries) == page
    modifies b, b.data
    ensures b.Settled() && (b.data == old(b.data) || fresh(b.data))
    ensures if ok then b.Text() == page && b.refused == old(b.refused) else b.refused || |page| + 1 > SIZE_MAX
  {
    assert entries[0..] == entries;
    for i := 0 to |entries|
      invariant b.Settled() && b.refused == old(b.refused) && (b.data == old(b.data) || fresh(b.data))
      invariant b.Text() + Rows(entries[i..]) == page
    {
      assert entries[i..][1..] == entries[i + 1..];
      ghost var rest := Rows(entries[i + 1..]);
      ghost var caption := LABEL + (HtmlEscape(entries[i].name) + (Slash(entries[i]) + (END_ITEM + rest)));
      ok := WriteAnchor(b, entries[i], caption, page);
      if ok {
        ok := WriteCaption(b, entries[i], rest, page);
      }
      if !ok {
        return;
      }
    }
    assert CLOSE + "" == CLOSE;
    ok := WriteText(b, CLOSE, "", page);
    assert b.Text() + "" == b.Text();
  }

  /** The whole page, src/files.c:563-592. */
  method WritePage(b: Builder, path: string, entries: seq<Entry>) returns (ok: bool)
    requires b.Settled() && b.Text() == "" && NUL !in path && AreEntries(entries)
    modifies b, b.data
    ensures b.Settled() && (b.data == old(b.data) || fresh(b.data))
    ensures if ok then b.Text() == Page(path, entries) && b.refused == old(b.refused)
            else b.refused || |Page(path, entries)| + 1 > SIZE_MAX
  {
    ghost var rows := Rows(entries);
    ghost var rest := HtmlEscape(path) + (LIST + rows);
    ghost var page := Page(path, entries);
    assert "" + page == page;
    LiteralsAreText();
    ok := WriteBetween(b, OPEN, path, HEADING, rest, page);
    if ok {
      ok := WriteEscaped(b, path, LIST + rows, page);
    }
    if ok {
      ok := WriteText(b, LIST, rows, page);
    }
    if ok {
      ok := WriteRows(b, entries, page);
    }
  }

  lemma LiteralsAreText()
    ensures NUL !in OPEN && NUL !in HEADING && NUL !in LIST
  {
  }

  /** The entries `readdir` and `stat` yield, src/files.c:539-558. Growing the array of entries may fail. */
  method ReadEntries(names: seq<string>, resolved: string, isDirectory: string -> bool)
    returns (ok: bool, entries: seq<Entry>)
    requires AreNames(names)
    ensures ok ==> entries == Visible(names, resolved, isDirectory) && AreEntries(entries)
  {
    entries := [];
    assert names[0..] == names;
    for i := 0 to |names|
      invariant entries + Visible(names[i..], resolved, isDirectory) == Visible(names, resolved, isDirectory)
      invariant AreEntries(entries)
    {
      assert names[i..][1..] == names[i + 1..];
      if names[i] != "" && names[i][0] == '.' {
        continue;
      }
      var childPath := resolved + "/" + names[i];
      var entry := Entry(names[i], |childPath| < FILE_PATH_MAX && isDirectory(childPath));
      var granted: bool := *;
      if !granted {
        return false, [];
      }
      Assoc(entries, [entry], Visible(names[i + 1..], resolved, isDirectory));
      entries := entries + [entry];
    }
    ok := true;
  }

  /** The listing, unless the directory cannot be opened, memory runs out, or no `size_t` counts the page. Of the
      buffers it is built in, no more is copied than twice its length. */
  method BuildDirectoryListing(requestPath: string, resolved: string, directory: Option<seq<string>>,
                               isDirectory: string -> bool)
    returns (result: FileResult, body: string, ghost refused: bool, ghost copied: nat)
    requires NUL !in requestPath && (directory.Some? ==> AreNames(directory.value))
    ensures result == Ok || result == Error
    ensures result == Ok ==>
              && directory.Some?
              && AreEntries(Sort(Visible(directory.value, resolved, isDirectory)))
              && body == Page(requestPath, Sort(Visible(directory.value, resolved, isDirectory)))
              && |body| < SIZE_MAX
              && (|body| < SIZE_MAX / 4 ==> copied <= 2 * |body|)
    ensures result == Error && directory.Some? && !refused ==>
              && AreEntries(Sort(Visible(directory.value, resolved, isDirectory)))
              && |Page(requestPath, Sort(Visible(directory.value, resolved, isDirectory)))| >= SIZE_MAX
  {
    result, body, refused, copied := Error, "", false, 0;
    if directory == None {
      return;
    }
    var ok, entries := ReadEntries(directory.value, resolved, isDirectory);
    if !ok {
      refused := true;
      return;
    }
    SortKeeps(entries);
    InMultiset(Sort(entries), entries);
    entries := Sort(entries);
    var b := new Builder();
    ok := WritePage(b, requestPath, entries);
    refused := b.refused;
    if !ok {
      return;
    }
    result, body, copied := Ok, b.data[..b.length], b.copied;
  }

  /** What a listing tells: exactly the directory's visible entries, each once, in strictly increasing byte order. */
  lemma ListingTellsTheDirectory(path: string, names: seq<string>, resolved: string, isDirectory: string -> bool)
    requires AreNames(names) && NoDuplicates(names)
    ensures var es := Sort(Visible(names, resolved, isDirectory));
            && AreEntries(es)
            && ReadPage(Page(path, es)) == Some((path, es))
            && StrictlyOrdered(es)
            && forall e :: e in es <==>
                           exists name :: name in names && Shows(e, name, resolved, isDirectory)
  {
    var shown := Visible(names, resolved, isDirectory);
    VisibleAre(names, resolved, isDirectory);
    VisibleAreDistinct(names, resolved, isDirectory);
    SortOrders(shown);
    SortKeeps(shown);
    InMultiset(Sort(shown), shown);
    PageReadsBack(path, Sort(shown));
  }
}
