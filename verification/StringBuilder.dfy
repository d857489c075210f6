/** The growing text buffer of src/files.c:11-149. */
module StringBuilder {
  import opened Prelude
  import opened Text
  import opened Html
  import opened UrlCodec

  const FIRST_CAPACITY: nat := 1024
  const HALF: nat := SIZE_MAX / 2 + 1

  function Doubled(k: nat): (r: nat) {
    if k == 0 then FIRST_CAPACITY else 2 * Doubled(k - 1)
  }

  ghost predicate IsDoubling(n: nat) {
    exists k: nat :: Doubled(k) == n
  }

  lemma DoubledGrows(j: nat, k: nat)
    requires j <= k
    ensures Doubled(j) <= Doubled(k)
  {
  }

  lemma TenDoublings(k: nat)
    ensures Doubled(k + 10) == 1024 * Doubled(k)
  {
    assert Doubled(k + 2) == 2 * Doubled(k + 1) == 4 * Doubled(k);
    assert Doubled(k + 4) == 2 * Doubled(k + 3) == 4 * Doubled(k + 2);
    assert Doubled(k + 6) == 2 * Doubled(k + 5) == 4 * Doubled(k + 4);
    assert Doubled(k + 8) == 2 * Doubled(k + 7) == 4 * Doubled(k + 6);
    assert Doubled(k + 10) == 2 * Doubled(k + 9) == 4 * Doubled(k + 8);
  }

  lemma HalfIsDoubling()
    ensures Doubled(53) == HALF
  {
    assert Doubled(0) == FIRST_CAPACITY;
    assert Doubled(3) == 8 * Doubled(0);
    TenDoublings(3);
    TenDoublings(13);
    TenDoublings(23);
    TenDoublings(33);
    TenDoublings(43);
  }

  /** No doubling lies between a half and the whole of the address space: the overflow guard is never too late. */
  lemma DoublingDoubles(n: nat)
    requires n < HALF && IsDoubling(n)
    ensures IsDoubling(2 * n) && 2 * n <= HALF
  {
    var k: nat :| Doubled(k) == n;
    assert Doubled(k + 1) == 2 * n;
    HalfIsDoubling();
    if k >= 53 {
      DoubledGrows(53, k);
    } else {
      DoubledGrows(k + 1, 53);
    }
  }

  /** The growth loop of `builder_reserve`, src/files.c:49-56: the least sufficient doubling of the capacity; and if
      there is none below half of the address space, just what is required. */
  method NextCapacity(capacity: Size, required: Size) returns (newCapacity: Size)
    requires capacity < required && (0 < capacity <= HALF ==> IsDoubling(capacity))
    ensures required <= newCapacity && (newCapacity <= FIRST_CAPACITY || newCapacity < 2 * required)
    ensures newCapacity <= HALF ==> IsDoubling(newCapacity) && 2 * capacity <= newCapacity
    ensures newCapacity > HALF ==> newCapacity == required
    ensures capacity == 0 ==> newCapacity >= FIRST_CAPACITY
  {
    newCapacity := if capacity == 0 then FIRST_CAPACITY else capacity;
    assert Doubled(0) == FIRST_CAPACITY;
    while newCapacity < required
      invariant capacity <= newCapacity && 0 < newCapacity && (capacity == 0 ==> newCapacity >= FIRST_CAPACITY)
      invariant newCapacity <= FIRST_CAPACITY || newCapacity == capacity || newCapacity < 2 * required
      invariant newCapacity <= HALF ==> IsDoubling(newCapacity)
      invariant newCapacity > HALF ==> newCapacity == capacity
      invariant capacity < newCapacity <= HALF ==> 2 * capacity <= newCapacity
      decreases required - newCapacity
    {
      if newCapacity > SIZE_MAX / 2 {
        newCapacity := required;
        break;
      }
      DoublingDoubles(newCapacity);
      newCapacity := 2 * newCapacity;
    }
  }

  class Builder {
    var data: array<char>
    var length: nat
    var capacity: nat
    /** The bytes `realloc` has moved so far, at most. */
    ghost var copied: nat
    /** The allocator has refused a request. */
    ghost var refused: bool

    /** Either nothing is allocated or the terminator has room; and unless the buffer is larger than half of
        the address space, its capacity is a doubling of the first one and pays for all copying so far. */
    ghost predicate Valid()
      reads this, data
    {
      && capacity == data.Length <= SIZE_MAX
      && (if capacity == 0 then length == 0 && copied == 0 else length < capacity)
      && (0 < capacity <= HALF ==> IsDoubling(capacity) && copied + FIRST_CAPACITY <= capacity)
    }

    /** What `data` is to a C reader is exactly the text, and no more than about half of it is unused. */
    ghost predicate Settled()
      reads this, data
    {
      && Valid()
      && (capacity > 0 ==> data[length] == NUL)
      && (capacity <= FIRST_CAPACITY || capacity < 2 * (length + 1))
    }

    ghost function Text(): (t: string)
      requires Valid()
      reads this, data
    {
      data[..length]
    }

    constructor ()
      ensures Settled() && Text() == "" && !refused
      ensures fresh(data)
    {
      data := new char[0];
      length, capacity, copied, refused := 0, 0, 0, false;
    }

    /** `builder_reserve`, src/files.c:32-66: room for `additional` characters and the terminator. It fails only
        if the allocator refuses or no `size_t` can count the bytes. */
    method Reserve(additional: Size) returns (ok: bool)
      requires Settled()
      modifies this
      ensures Valid() && Text() == old(Text()) && length == old(length)
      ensures data == old(data) || fresh(data)
      ensures ok ==> length + additional < capacity && refused == old(refused)
      ensures ok ==> capacity <= FIRST_CAPACITY || capacity < 2 * (length + additional + 1)
      ensures !ok ==> Settled() && (refused || length + additional + 1 > SIZE_MAX)
    {
      if additional > SIZE_MAX - length - 1 {
        return false;
      }
      var required := length + additional + 1;
      if required <= capacity {
        return true;
      }
      var newCapacity := NextCapacity(capacity, required);
      var granted: bool := *;
      if !granted {
        refused := true;
        return false;
      }
      var grown := new char[newCapacity];
      forall i | 0 <= i < length {
        grown[i] := data[i];
      }
      assert grown[..length] == data[..length];
      copied := copied + capacity;
      data, capacity := grown, newCapacity;
      ok := true;
    }

    /** `builder_append_text`, src/files.c:68-79. */
    method AppendText(text: string) returns (ok: bool)
      requires Settled() && |text| <= SIZE_MAX && NUL !in text
      modifies this, data
      ensures Settled() && (data == old(data) || fresh(data))
      ensures ok ==> Text() == old(Text()) + text && refused == old(refused)
      ensures !ok ==> Text() == old(Text()) && (refused || old(length) + |text| + 1 > SIZE_MAX)
    {
      ok := Reserve(|text|);
      if ok {
        Store(text);
      }
    }

    /** The `memcpy` of a text into the room reserved for it, and the terminator after it. */
    method Store(text: string)
      requires Valid() && length + |text| < capacity
      modifies this`length, data
      ensures length == old(length) + |text|
      ensures data[..length] == old(data[..length]) + text && data[length] == NUL
    {
      forall i | 0 <= i < |text| {
        data[length + i] := text[i];
      }
      length := length + |text|;
      data[length] := NUL;
    }

    /** `builder_append_char`, src/files.c:81-89. */
    method AppendChar(ch: char) returns (ok: bool)
      requires Settled()
      modifies this, data
      ensures Settled() && (data == old(data) || fresh(data))
      ensures ok ==> Text() == old(Text()) + [ch] && refused == old(refused)
      ensures !ok ==> Text() == old(Text()) && (refused || old(length) + 2 > SIZE_MAX)
    {
      ok := Reserve(1);
      if ok {
        data[length] := ch;
        length := length + 1;
        data[length] := NUL;
        assert Text() == old(Text()) + [ch];
      }
    }

    /** One turn of the loop of `builder_append_html_escaped`, src/files.c:93-119. */
    method AppendHtmlChar(ch: char) returns (ok: bool)
      requires Settled() && ch != NUL
      modifies this, data
      ensures Settled() && (data == old(data) || fresh(data))
      ensures ok ==> Text() == old(Text()) + EscapeChar(ch) && refused == old(refused)
      ensures !ok ==> Text() == old(Text()) && (refused || old(length) + |EscapeChar(ch)| + 1 > SIZE_MAX)
    {
      match ch {
        case '&' => ok := AppendText("&amp;");
        case '<' => ok := AppendText("&lt;");
        case '>' => ok := AppendText("&gt;");
        case '"' => ok := AppendText("&quot;");
        case _ => ok := AppendChar(ch);
      }
    }

    /** `builder_append_html_escaped`, src/files.c:91-122. */
    method AppendHtmlEscaped(text: string) returns (ok: bool)
      requires Settled() && NUL !in text
      modifies this, data
      ensures Settled() && (data == old(data) || fresh(data))
      ensures ok ==> Text() == old(Text()) + HtmlEscape(text) && refused == old(refused)
      ensures !ok ==> Text() <= old(Text()) + HtmlEscape(text)
      ensures !ok ==> refused || |old(Text()) + HtmlEscape(text)| + 1 > SIZE_MAX
    {
      ghost var whole := Text() + HtmlEscape(text);
      for i := 0 to |text|
        invariant Settled() && (data == old(data) || fresh(data))
        invariant Text() + HtmlEscape(text[i..]) == whole && refused == old(refused)
      {
        EscapedOneMore(Text(), text, i);
        ok := AppendHtmlChar(text[i]);
        if !ok {
          return;
        }
      }
      ok := true;
    }

    /** One turn of the loop of `builder_append_url_escaped`, src/files.c:131-146. */
    method AppendUrlByte(ch: char) returns (ok: bool)
      requires Settled() && IsByte(ch) && ch != NUL
      modifies this, data
      ensures Settled() && (data == old(data) || fresh(data))
      ensures ok ==> Text() == old(Text()) + EscapeByte(ch) && refused == old(refused)
      ensures !ok ==> Text() == old(Text()) && (refused || old(length) + |EscapeByte(ch)| + 1 > SIZE_MAX)
    {
      if IsUnreserved(ch) {
        ok := AppendChar(ch);
      } else {
        HexDigits(ch);
        ok := AppendText(['%', HEX[ch as int / 16], HEX[ch as int % 16]]);
      }
    }

    /** `builder_append_url_escaped`, src/files.c:128-149. */
    method AppendUrlEscaped(text: string) returns (ok: bool)
      requires Settled() && IsBytes(text) && NUL !in text
      modifies this, data
      ensures Settled() && (data == old(data) || fresh(data))
      ensures ok ==> Text() == old(Text()) + UrlEscape(text) && refused == old(refused)
      ensures !ok ==> Text() <= old(Text()) + UrlEscape(text)
      ensures !ok ==> refused || |old(Text()) + UrlEscape(text)| + 1 > SIZE_MAX
    {
      ghost var whole := Text() + UrlEscape(text);
      for i := 0 to |text|
        invariant Settled() && (data == old(data) || fresh(data))
        invariant Text() + UrlEscape(text[i..]) == whole && refused == old(refused)
      {
        LinkOneMore(Text(), text, i);
        ok := AppendUrlByte(text[i]);
        if !ok {
          return;
        }
      }
      ok := true;
    }
  }

  const HEX := "0123456789ABCDEF"

  lemma HexDigits(c: char)
    requires IsByte(c) && c != NUL && !IsUnreserved(c)
    ensures EscapeByte(c) == ['%', HEX[c as int / 16], HEX[c as int % 16]] && NUL !in EscapeByte(c)
  {
  }

  lemma EscapedOneMore(before: string, text: string, i: nat)
    requires i < |text|
    ensures before + HtmlEscape(text[i..]) == before + EscapeChar(text[i]) + HtmlEscape(text[i + 1..])
  {
    assert text[i..][1..] == text[i + 1..];
  }

  lemma LinkOneMore(before: string, text: string, i: nat)
    requires i < |text| && IsBytes(text)
    ensures before + UrlEscape(text[i..]) == before + EscapeByte(text[i]) + UrlEscape(text[i + 1..])
  {
    assert text[i..][1..] == text[i + 1..];
  }
}
