/** A client's view of the connection: complete responses, one after the other. */
module Messages {
  import opened Prelude
  import opened Text
  import opened Numerals
  import opened HttpParser
  import opened HttpPrinter
  import opened Framing
  import opened Responses

  /** A response to be sent: `body` is what follows the header block. It is incomplete if the file turned
      out shorter than announced. */
  datatype Response = Response(head: ResponseHead, toHead: bool, body: string, complete: bool) {
    ghost predicate Valid() {
      && head.Valid()
      && (toHead ==> body == "" && complete)
      && (!toHead ==> (complete <==> |body| == head.length))
    }

    function Wire(): (r: string) {
      head.Print() + body
    }
  }

  datatype Message = Message(status: nat, body: string)

  /** Section 6.3 of RFC 9112: no body after HEAD and after the statuses that have none, otherwise as many
      bytes as Content-Length says. */
  ghost function BodyLength(text: string, status: nat, toHead: bool): (r: Option<nat>) {
    if toHead || status < 200 || status == 204 || status == 304 then Some(0)
    else
      match LastValue(LinesOf(text), "Content-Length")
      case None => None
      case Some(v) => if IsSize(v) then Some(Value(v)) else None
  }

  /** The first message of a byte stream, and the rest. */
  ghost function ReadMessage(text: string, toHead: bool): (r: Option<(Message, string)>) {
    var end := FirstBlankLine(text) + 4;
    if end > |text| || end < 12 || !IsSize(text[9..12]) then None
    else
      var status := Value(text[9..12]);
      match BodyLength(text, status, toHead)
      case None => None
      case Some(n) =>
        if end + n > |text| then None else Some((Message(status, text[end..end + n]), text[end + n..]))
  }

  /** All messages of a byte stream; the reader knows which of its requests it sent as HEAD. */
  ghost function ReadAll(text: string, sentHead: seq<bool>): (r: Option<seq<Message>>) {
    if sentHead == [] then if text == "" then Some([]) else None
    else
      match ReadMessage(text, sentHead[0])
      case None => None
      case Some((m, rest)) =>
        match ReadAll(rest, sentHead[1..])
        case None => None
        case Some(ms) => Some([m] + ms)
  }

  function Wires(rs: seq<Response>): (r: string) {
    if rs == [] then "" else rs[0].Wire() + Wires(rs[1..])
  }

  function MessagesOf(rs: seq<Response>): (r: seq<Message>) {
    if rs == [] then [] else [Message(rs[0].head.status, rs[0].body)] + MessagesOf(rs[1..])
  }

  /** What the printed header lines say about the body and about the connection. */
  lemma LinesSay(h: ResponseHead, head: string, tail: string)
    requires h.Valid() && head == h.Print()
    ensures LastValue(LinesOf(head + tail), "Content-Length") == Some(PrintSize(h.length))
    ensures LastValue(LinesOf(head + tail), "Connection") == Some(ConnectionText(h.keepAlive))
  {
    HeadReadsBack(h, head, tail);
    FieldsAreCanonical(h);
    FieldsOfLines(h.Fields(), "Content-Length");
    FieldsOfLines(h.Fields(), "Connection");
    FieldsSay(h);
  }

  /** How many body bytes a reader expects after the header block. */
  function Expected(r: Response, sentHead: bool): (result: nat) {
    if sentHead then 0 else r.head.length
  }

  lemma ExpectedLength(r: Response, sentHead: bool, head: string, tail: string)
    requires r.head.Valid() && head == r.head.Print()
    ensures BodyLength(head + tail, r.head.status, sentHead) == Some(Expected(r, sentHead))
  {
    LinesSay(r.head, head, tail);
    SizeRoundTrip(r.head.length);
  }

  lemma ReadsAt(text: string, sentHead: bool, h: nat, status: nat, n: nat)
    requires 12 <= h == FirstBlankLine(text) + 4 <= |text| && text[9..12] == PrintSize(status)
             && IsSize(PrintSize(status))
    requires Value(PrintSize(status)) == status && BodyLength(text, status, sentHead) == Some(n)
    ensures ReadMessage(text, sentHead)
         == if h + n > |text| then None else Some((Message(status, text[h..h + n]), text[h + n..]))
  {
  }

  lemma SliceBehind(head: string, tail: string, n: nat)
    requires n <= |tail|
    ensures (head + tail)[|head|..|head| + n] == tail[..n] && (head + tail)[|head| + n..] == tail[n..]
  {
  }

  lemma ReadsBehind(head: string, tail: string, sentHead: bool, status: nat, n: nat)
    requires 12 <= |head| == FirstBlankLine(head + tail) + 4
    requires (head + tail)[9..12] == PrintSize(status) && IsSize(PrintSize(status))
    requires Value(PrintSize(status)) == status && BodyLength(head + tail, status, sentHead) == Some(n)
    ensures ReadMessage(head + tail, sentHead)
         == if n > |tail| then None else Some((Message(status, tail[..n]), tail[n..]))
  {
    ReadsAt(head + tail, sentHead, |head|, status, n);
    if n <= |tail| {
      SliceBehind(head, tail, n);
    }
  }

  /** What a reader makes of a response and what follows it, whatever was really sent as the body. */
  lemma ReadsExpected(r: Response, sentHead: bool, tail: string)
    requires r.head.Valid()
    ensures var n := Expected(r, sentHead);
            ReadMessage(r.head.Print() + tail, sentHead)
            == if n > |tail| then None else Some((Message(r.head.status, tail[..n]), tail[n..]))
  {
    var head, n := r.head.Print(), Expected(r, sentHead);
    HeadReadsBack(r.head, head, tail);
    SizeRoundTrip(r.head.status);
    ExpectedLength(r, sentHead, head, tail);
    ReadsBehind(head, tail, sentHead, r.head.status, n);
  }

  /** A response is read back, and reading goes on behind it, exactly if its body has the expected length. */
  lemma OneMessageIff(r: Response, sentHead: bool, rest: string)
    requires r.head.Valid()
    ensures var m := ReadMessage(r.Wire() + rest, sentHead);
            if |r.body| == Expected(r, sentHead) then m == Some((Message(r.head.status, r.body), rest))
            else m == None || m.value.0.body != r.body
  {
    ReadsExpected(r, sentHead, r.body + rest);
    Assoc(r.head.Print(), r.body, rest);
    Cut(r.body, rest);
  }

  lemma ReadOneMore(text: string, sentHead: seq<bool>, m: Message, rest: string, ms: seq<Message>)
    requires sentHead != [] && ReadMessage(text, sentHead[0]) == Some((m, rest))
    ensures ReadAll(text, sentHead) == Some([m] + ms) <==> ReadAll(rest, sentHead[1..]) == Some(ms)
  {
    var read := ReadAll(rest, sentHead[1..]);
    if read.Some? {
      Cut([m], read.value);
      Cut([m], ms);
    }
  }

  lemma ReadOneWrong(text: string, sentHead: seq<bool>, m: Message, ms: seq<Message>)
    requires sentHead != []
    requires ReadMessage(text, sentHead[0]) == None || ReadMessage(text, sentHead[0]).value.0 != m
    ensures ReadAll(text, sentHead) != Some([m] + ms)
  {
    var read := ReadAll(text, sentHead);
    assert read.Some? ==> read.value[0] == ReadMessage(text, sentHead[0]).value.0;
    assert ([m] + ms)[0] == m;
  }

  ghost predicate AllExpected(rs: seq<Response>, sentHead: seq<bool>)
    requires |rs| == |sentHead|
  {
    forall i :: 0 <= i < |rs| ==> |rs[i].body| == Expected(rs[i], sentHead[i])
  }

  /** The output frames itself: from the bytes of a sequence of responses, a reader that knows which requests it sent
      as HEAD recovers exactly the statuses and the bodies, if and only if each body has the length that the reader
      expects: none for a HEAD, the announced one for all others. */
  lemma {:induction false} OutputFramesItselfIff(rs: seq<Response>, sentHead: seq<bool>)
    requires |rs| == |sentHead| && forall i :: 0 <= i < |rs| ==> rs[i].head.Valid()
    ensures ReadAll(Wires(rs), sentHead) == Some(MessagesOf(rs)) <==> AllExpected(rs, sentHead)
    decreases |rs|
  {
    if rs != [] {
      var r, rest, ms := rs[0], Wires(rs[1..]), MessagesOf(rs[1..]);
      var text, m := r.Wire() + rest, Message(r.head.status, r.body);
      OneMessageIff(r, sentHead[0], rest);
      OutputFramesItselfIff(rs[1..], sentHead[1..]);
      AllExpectedSplits(rs, sentHead);
      if |r.body| == Expected(r, sentHead[0]) {
        ReadOneMore(text, sentHead, m, rest, ms);
      } else {
        ReadOneWrong(text, sentHead, m, ms);
      }
    }
  }

  lemma AllExpectedSplits(rs: seq<Response>, sentHead: seq<bool>)
    requires |rs| == |sentHead| && rs != []
    ensures AllExpected(rs, sentHead)
       <==> |rs[0].body| == Expected(rs[0], sentHead[0]) && AllExpected(rs[1..], sentHead[1..])
  {
    if AllExpected(rs[1..], sentHead[1..]) {
      forall i | 1 <= i < |rs|
        ensures |rs[i].body| == Expected(rs[i], sentHead[i])
      {
        assert rs[1..][i - 1] == rs[i] && sentHead[1..][i - 1] == sentHead[i];
      }
    }
  }

  /** Whether a response announces, to a reader of its text, that the connection will be closed. */
  ghost predicate AnnouncesClose(text: string) {
    LastValue(LinesOf(text), "Connection").Some?
    && EqualIgnoringCase(LastValue(LinesOf(text), "Connection").value, "close")
  }

  lemma AnnouncesCloseIff(r: Response, rest: string)
    requires r.Valid()
    ensures AnnouncesClose(r.Wire() + rest) <==> !r.head.keepAlive
  {
    LinesSay(r.head, r.head.Print(), r.body + rest);
    Assoc(r.head.Print(), r.body, rest);
    assert |"keep-alive"| == 10 && |"close"| == 5;
  }
}
