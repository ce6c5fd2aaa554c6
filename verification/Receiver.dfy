/** What `Request::receive` does with the bytes of successful reads: header first, then a body of
    Content-Length bytes (section 3.3.3 of RFC 7230) or a chunked one. */
module Receivers {
  import opened Text
  import opened Numbers
  import opened ResponseHeaders
  import StringUtil
  import opened Chunked
  import opened Cuts
  import opened Trace

  const INVALID: int := -1

  /** The local variables of `receive` that live from one read to the next. */
  datatype Receiver = Receiver(buffer: string, headerDone: bool, contentLength: int, recvLength: nat,
                               transferCoding: string, chunkSize: int)

  const START: Receiver := Receiver("", false, INT64_MAX, 0, "", INVALID)

  /** How one read ends: wait for more, follow a redirect, disconnect, report a chunk error, or die
      of an uncaught exception. */
  datatype Outcome = Continue | Redirect(location: string) | Close | ChunkError | Crash

  datatype Reaction = Reaction(state: Receiver, events: seq<Event>, outcome: Outcome)

  function DataEvents(payloads: seq<string>): seq<Event> {
    seq(|payloads|, i requires 0 <= i < |payloads| => OnData(payloads[i]))
  }

  function OutcomeOf(s: Status): Outcome {
    match s
    case NeedMore => Continue
    case Completed => Close
    case SizeError => ChunkError
    case Throws => Crash
  }

  /** Body bytes of one read, the header being done. */
  function Deliver(s: Receiver, bytes: string): Reaction {
    var received := s.recvLength + |bytes|;
    if s.transferCoding == "chunked" then
      var scan := Decode(s.buffer + bytes, s.chunkSize);
      Reaction(s.(recvLength := received, buffer := scan.rest, chunkSize := scan.chunkSize),
               DataEvents(Deliveries(scan.segments)), OutcomeOf(scan.status))
    else
      Reaction(s.(recvLength := received), if bytes == "" then [] else [OnData(bytes)],
               if received >= s.contentLength then Close else Continue)
  }

  /** Content-Length as std::stoll reads it, INT64_MAX when the field is missing, None when it throws. */
  function ContentLength(h: Headers): Option<int> {
    if "Content-Length" in h then Stoll(h["Content-Length"]) else Some(INT64_MAX)
  }

  function TransferCoding(h: Headers): string {
    if "Transfer-Encoding" in h then h["Transfer-Encoding"] else ""
  }

  /** The two fields that decide on the body, by their names. */
  lemma FieldsDecide(h: Headers)
    ensures TransferCoding(h) == "chunked" <==> "Transfer-Encoding" in h && h["Transfer-Encoding"] == "chunked"
    ensures ContentLength(h) == if "Content-Length" in h then Stoll(h["Content-Length"]) else Some(9223372036854775807)
  {
    hide Stoll;
  }

  function Location(h: Headers): string {
    if "Location" in h then h["Location"] else ""
  }

  function WithEvents(first: seq<Event>, r: Reaction): Reaction {
    r.(events := first + r.events)
  }

  /** What follows a header of `size` bytes at the front of `data`. */
  function Headed(h: ResponseHeader, data: string, size: nat, allowRedirect: bool): Reaction
    requires size <= |data|
  {
    if h.IsNeedRedirect() && allowRedirect then Reaction(START, [], Redirect(Location(h.headers)))
    else
      match ContentLength(h.headers)
      case None => Reaction(START, [], Crash)
      case Some(n) =>
        WithEvents([OnParseHeaderDone(h)],
                   Deliver(Receiver("", true, n, 0, TransferCoding(h.headers), INVALID), data[size..]))
  }

  /** One successful read. */
  function OnRead(s: Receiver, bytes: string, allowRedirect: bool): Reaction {
    if s.headerDone then Deliver(s, bytes)
    else
      var data := s.buffer + bytes;
      match ParseHeader(data, EMPTY)
      case NeedMore => Reaction(s.(buffer := data), [], Continue)
      case Throws => Reaction(s, [], Crash)
      case Parsed(h, size) => HeaderEndsInside(data, EMPTY); Headed(h, data, size, allowRedirect)
  }

  lemma HeaderEndsInside(data: string, r: ResponseHeader)
    ensures match ParseHeader(data, r) case Parsed(_, size) => 4 <= size <= |data| case _ => true
  {
  }

  /** All reads so far; nothing happens after the first that does not end with Continue. */
  function Feed(parts: seq<string>, allowRedirect: bool): Reaction {
    if parts == [] then Reaction(START, [], Continue)
    else
      var before := Feed(parts[..|parts| - 1], allowRedirect);
      if !before.outcome.Continue? then before
      else
        WithEvents(before.events, OnRead(before.state, parts[|parts| - 1], allowRedirect))
  }

  lemma FeedStep(parts: seq<string>, bytes: string, allowRedirect: bool)
    ensures var before := Feed(parts, allowRedirect);
            Feed(parts + [bytes], allowRedirect) ==
            if !before.outcome.Continue? then before
            else WithEvents(before.events, OnRead(before.state, bytes, allowRedirect))
  {
    assert (parts + [bytes])[..|parts|] == parts;
  }

  lemma DataEventsShape(s: Receiver, bytes: string)
    ensures var r := Deliver(s, bytes);
            (forall i | 0 <= i < |r.events| :: r.events[i].OnData?) && r.state.headerDone == s.headerDone
            && !r.outcome.Redirect?
  {
    hide Decode;
  }

  /** Whatever arrives, the calls are none or one HeaderDone followed by Data; a redirect makes none. */
  lemma {:induction false} FeedShape(parts: seq<string>, allowRedirect: bool)
    ensures var f := Feed(parts, allowRedirect);
            && (f.events == [] || HeaderAndData(f.events))
            && (f.outcome.Redirect? ==> f.events == [])
            && (f.outcome.Continue? ==> (f.state.headerDone <==> f.events != []))
  {
    hide ParseHeader, Deliver, ContentLength, TransferCoding;
    if parts != [] {
      var init, bytes := parts[..|parts| - 1], parts[|parts| - 1];
      FeedShape(init, allowRedirect);
      var before := Feed(init, allowRedirect);
      if before.outcome.Continue? {
        if before.state.headerDone {
          DataEventsShape(before.state, bytes);
        } else {
          assert before.events + OnRead(before.state, bytes, allowRedirect).events
                 == OnRead(before.state, bytes, allowRedirect).events;
          FirstReadShape(before.state, bytes, allowRedirect);
        }
      }
    }
  }

  lemma FirstReadShape(s: Receiver, bytes: string, allowRedirect: bool)
    requires !s.headerDone
    ensures var r := OnRead(s, bytes, allowRedirect);
            && (r.events == [] || HeaderAndData(r.events))
            && (r.outcome.Redirect? ==> r.events == [])
            && (r.outcome.Continue? ==> (r.state.headerDone <==> r.events != []))
  {
    hide ParseHeader, Deliver, ContentLength, TransferCoding;
    var data := s.buffer + bytes;
    match ParseHeader(data, EMPTY)
    case Parsed(h, size) =>
      HeaderEndsInside(data, EMPTY);
      if ContentLength(h.headers).Some? {
        DataEventsShape(Receiver("", true, ContentLength(h.headers).value, 0, TransferCoding(h.headers), INVALID),
                        data[size..]);
      }
    case _ =>
  }

  // ---------- A response under fragmentation ----------

  /** A response header of `size` bytes at the front of the stream that is not redirected. */
  ghost predicate HeaderAt(stream: string, h: ResponseHeader, size: nat, allowRedirect: bool) {
    && ParseHeader(stream, EMPTY) == Parsed(h, size)
    && !(h.IsNeedRedirect() && allowRedirect)
    && ContentLength(h.headers).Some?
  }

  function PayloadOf(events: seq<Event>): string {
    if events == [] then ""
    else
      var e := events[|events| - 1];
      PayloadOf(events[..|events| - 1]) + if e.OnData? then e.bytes else ""
  }

  ghost predicate NonEmptyData(events: seq<Event>) {
    forall i | 0 <= i < |events| :: events[i].OnData? && events[i].bytes != ""
  }

  /** [HeaderDone(h), Data, ...] with exactly the bytes `body`. */
  ghost predicate Reassembled(events: seq<Event>, h: ResponseHeader, body: string) {
    && |events| > 0 && events[0] == OnParseHeaderDone(h)
    && NonEmptyData(events[1..])
    && PayloadOf(events) == body
  }

  lemma ReassembledMore(events: seq<Event>, h: ResponseHeader, body: string, bytes: string)
    requires Reassembled(events, h, body) && bytes != ""
    ensures Reassembled(events + [OnData(bytes)], h, body + bytes)
  {
    var more := events + [OnData(bytes)];
    assert more[..|events|] == events;
    assert more[1..] == events[1..] + [OnData(bytes)];
  }

  lemma ReassembledFirst(h: ResponseHeader, bytes: string)
    ensures Reassembled([OnParseHeaderDone(h)] + (if bytes == "" then [] else [OnData(bytes)]), h, bytes)
  {
    var first := [OnParseHeaderDone(h)];
    assert first[..0] == [] && first[1..] == [];
    assert PayloadOf(first) == "";
    if bytes == "" {
      assert first + [] == first;
    } else {
      ReassembledMore(first, h, "", bytes);
    }
  }

  /** While the header is incomplete the reads pile up. */
  lemma {:induction false} FeedBeforeHeader(parts: seq<string>, stream: string, h: ResponseHeader, size: nat,
                                            allowRedirect: bool)
    requires ParseHeader(stream, EMPTY) == Parsed(h, size)
    requires Concat(parts) <= stream && |Concat(parts)| < size
    ensures Feed(parts, allowRedirect) == Reaction(START.(buffer := Concat(parts)), [], Continue)
  {
    hide ParseHeader, ContentLength, Headed, Deliver;
    if parts != [] {
      var n := |parts| - 1;
      FeedBeforeHeader(parts[..n], stream, h, size, allowRedirect);
      ParseWaits(stream, |Concat(parts)|, EMPTY);
      assert stream[..|Concat(parts)|] == Concat(parts);
    }
  }

  /** The read that completes the header sees the same header, however the stream was cut. */
  lemma FeedAtHeader(parts: seq<string>, stream: string, h: ResponseHeader, size: nat, allowRedirect: bool)
    requires ParseHeader(stream, EMPTY) == Parsed(h, size) && parts != []
    requires Concat(parts) <= stream && size <= |Concat(parts)|
    requires |Concat(parts[..|parts| - 1])| < size
    ensures Feed(parts, allowRedirect) == Headed(h, Concat(parts), size, allowRedirect)
  {
    hide ParseHeader, ContentLength, Headed, Deliver;
    var n := |parts| - 1;
    var data := Concat(parts);
    FeedBeforeHeader(parts[..n], stream, h, size, allowRedirect);
    assert stream == data + stream[|data|..];
    HeaderInPrefix(stream, |data|, h, size);
    assert stream[..|data|] == data;
  }

  lemma HeaderInPrefix(stream: string, k: nat, h: ResponseHeader, size: nat)
    requires ParseHeader(stream, EMPTY) == Parsed(h, size) && size <= k <= |stream|
    ensures ParseHeader(stream[..k], EMPTY) == Parsed(h, size)
  {
    hide ParseLines;
    var data := stream[..k];
    var p := Find(stream, HEADER_END, 0).value;
    assert data[p..p + 4] == stream[p..p + 4];
    assert OccursAt(data, HEADER_END, p);
    ParseIgnoresTail(data, stream[k..], EMPTY);
    assert data + stream[k..] == stream;
  }

  /** A redirect is seen at the read that completes the header, whatever follows it, and nothing has been
      called by then; its target is the Location field, empty when there is none. */
  lemma RedirectSeen(parts: seq<string>, stream: string, h: ResponseHeader, size: nat, allowRedirect: bool)
    requires ParseHeader(stream, EMPTY) == Parsed(h, size) && parts != []
    requires Concat(parts) <= stream && |Concat(parts[..|parts| - 1])| < size <= |Concat(parts)|
    ensures var f := Feed(parts, allowRedirect);
            f.outcome.Redirect? <==> allowRedirect && h.httpStatusCode in {301, 302}
    ensures allowRedirect && h.httpStatusCode in {301, 302} ==>
              && Feed(parts, allowRedirect).events == []
              && Feed(parts, allowRedirect).outcome
                 == Redirect(if "Location" in h.headers then h.headers["Location"] else "")
  {
    hide ParseHeader, Feed, Deliver, ContentLength, TransferCoding;
    FeedAtHeader(parts, stream, h, size, allowRedirect);
    if ContentLength(h.headers).Some? {
      DataEventsShape(Receiver("", true, ContentLength(h.headers).value, 0, TransferCoding(h.headers), INVALID),
                      Concat(parts)[size..]);
    }
  }

  /** No read before the last has already brought the body to its full length. */
  ghost predicate StillOpen(parts: seq<string>, total: int) {
    forall k | 0 <= k < |parts| :: |Concat(parts[..k])| < total
  }

  /** Every body that is not chunked: after any reads the header and exactly the bytes received
      behind it have been delivered, and the connection is closed at the first read that brings
      the count to Content-Length. */
  lemma {:induction false} FeedIdentity(parts: seq<string>, stream: string, h: ResponseHeader, size: nat,
                                        allowRedirect: bool)
    requires HeaderAt(stream, h, size, allowRedirect)
    requires !("Transfer-Encoding" in h.headers && h.headers["Transfer-Encoding"] == "chunked")
    requires Concat(parts) <= stream && |Concat(parts)| >= size
    requires forall i | 0 <= i < |parts| :: parts[i] != ""
    requires StillOpen(parts, size + ContentLength(h.headers).value)
    ensures var n := ContentLength(h.headers).value;
            var f := Feed(parts, allowRedirect);
            && Reassembled(f.events, h, stream[size..|Concat(parts)|])
            && f.outcome == (if |Concat(parts)| >= size + n then Close else Continue)
            && f.state == Receiver("", true, n, |Concat(parts)| - size, TransferCoding(h.headers), INVALID)
  {
    hide ParseHeader, ContentLength, TransferCoding, Feed, Reassembled;
    FieldsDecide(h.headers);
    var n := |parts| - 1;
    HeaderNotEmpty(stream, h, size);
    var init, bytes := parts[..n], parts[n];
    assert parts == init + [bytes];
    assert Concat(parts) == Concat(init) + bytes;
    assert stream[size..|Concat(parts)|] == Concat(parts)[size..];
    if |Concat(init)| < size {
      FeedAtHeader(parts, stream, h, size, allowRedirect);
      ReassembledFirst(h, Concat(parts)[size..]);
    } else {
      assert forall k | 0 <= k < |init| :: init[..k] == parts[..k];
      assert |Concat(parts[..n])| < size + ContentLength(h.headers).value;
      FeedIdentity(init, stream, h, size, allowRedirect);
      FeedStep(init, bytes, allowRedirect);
      ReassembledMore(Feed(init, allowRedirect).events, h, stream[size..|Concat(init)|], bytes);
      assert stream[size..|Concat(parts)|] == stream[size..|Concat(init)|] + bytes;
    }
  }

  lemma HeaderNotEmpty(stream: string, h: ResponseHeader, size: nat)
    requires ParseHeader(stream, EMPTY) == Parsed(h, size)
    ensures 4 <= size <= |stream|
  {
    HeaderEndsInside(stream, EMPTY);
  }

  lemma PrefixesAreShorter(parts: seq<string>, k: nat)
    requires k < |parts| && forall i | 0 <= i < |parts| :: parts[i] != ""
    ensures |Concat(parts[..k])| < |Concat(parts)|
  {
    ConcatMonotone(parts, k + 1);
    assert parts[..k + 1][..k] == parts[..k] && parts[..k + 1][k] == parts[k];
  }

  lemma ContinuesBefore(parts: seq<string>, k: nat, stream: string, h: ResponseHeader, size: nat, allowRedirect: bool)
    requires HeaderAt(stream, h, size, allowRedirect)
    requires !("Transfer-Encoding" in h.headers && h.headers["Transfer-Encoding"] == "chunked")
    requires Concat(parts) <= stream && StillOpen(parts, size + ContentLength(h.headers).value)
    requires k < |parts| && forall i | 0 <= i < |parts| :: parts[i] != ""
    ensures Feed(parts[..k], allowRedirect).outcome == Continue
  {
    hide Feed, ContentLength, TransferCoding, Reassembled, ParseHeader;
    FieldsDecide(h.headers);
    ConcatMonotone(parts, k);
    if |Concat(parts[..k])| < size {
      FeedBeforeHeader(parts[..k], stream, h, size, allowRedirect);
    } else {
      assert forall j | 0 <= j < k :: parts[..k][..j] == parts[..j];
      assert StillOpen(parts[..k], size + ContentLength(h.headers).value);
      FeedIdentity(parts[..k], stream, h, size, allowRedirect);
    }
  }

  /** Whole-response reassembly: header plus Content-Length bytes, cut anywhere into non-empty reads,
      give one HeaderDone with the same header, payloads that make up the body, and the close at the
      read that completes it and no earlier. */
  lemma WholeResponse(parts: seq<string>, stream: string, h: ResponseHeader, size: nat, allowRedirect: bool)
    requires HeaderAt(stream, h, size, allowRedirect)
    requires !("Transfer-Encoding" in h.headers && h.headers["Transfer-Encoding"] == "chunked")
    requires |stream| == size + (if "Content-Length" in h.headers then Stoll(h.headers["Content-Length"]).value
                                 else 9223372036854775807)
    requires Concat(parts) == stream && forall i | 0 <= i < |parts| :: parts[i] != ""
    ensures Feed(parts, allowRedirect).outcome == Close
    ensures Reassembled(Feed(parts, allowRedirect).events, h, stream[size..])
    ensures forall k | 0 <= k < |parts| :: Feed(parts[..k], allowRedirect).outcome == Continue
  {
    hide Feed, ContentLength, TransferCoding, Reassembled, ParseHeader;
    FieldsDecide(h.headers);
    HeaderFits(stream, h, size, allowRedirect);
    forall k | 0 <= k < |parts|
      ensures |Concat(parts[..k])| < |stream|
    {
      PrefixesAreShorter(parts, k);
    }
    assert StillOpen(parts, |stream|);
    FeedIdentity(parts, stream, h, size, allowRedirect);
    assert stream[size..|Concat(parts)|] == stream[size..];
    forall k | 0 <= k < |parts|
      ensures Feed(parts[..k], allowRedirect).outcome == Continue
    {
      ContinuesBefore(parts, k, stream, h, size, allowRedirect);
    }
  }

  /** A status line that is not redirected, and storable fields each on a line of its own in some order. */
  ghost predicate Readable(status: string, m: Headers, order: seq<string>, allowRedirect: bool) {
    && status != "" && ':' !in status && !Contains(status, CRLF)
    && ParseStatus(status, EMPTY).Some?
    && !(allowRedirect && ParseStatus(status, EMPTY).value.httpStatusCode in {301, 302})
    && (forall k | k in m :: Storable(k, m[k]) && !Contains(HeaderLine(k, m[k]), CRLF))
    && (set k | k in order) == m.Keys && (forall i | 0 <= i < |order| :: order[i] in m)
  }

  /** From the printed response to the calls: any storable header map with the body's Content-Length,
      printed in any order behind a status line, followed by the body and cut anywhere, arrives as one
      HeaderDone with that map and the Version entry and as payloads that make up the body. */
  lemma ResponseRoundTrip(status: string, m: Headers, order: seq<string>, body: string, parts: seq<string>,
                          allowRedirect: bool)
    requires Readable(status, m, order, allowRedirect)
    requires "Content-Length" in m && m["Content-Length"] == Numeral(|body|, 10) && |body| <= INT64_MAX
    requires !("Transfer-Encoding" in m && m["Transfer-Encoding"] == "chunked")
    requires forall i | 0 <= i < |parts| :: parts[i] != ""
    requires Concat(parts) == StringUtil.Join([status] + HeaderLines(m, order), "\r\n") + "\r\n\r\n" + body
    ensures var base := ParseStatus(status, EMPTY).value;
            var f := Feed(parts, allowRedirect);
            && f.outcome == Close
            && Reassembled(f.events, base.(headers := base.headers + m), body)
            && base.headers.Keys <= {"Version"}
  {
    hide Feed, ParseHeader, Storable, HeaderLines, Reassembled, Numeral, Stoll, ParseStatus;
    var base := ParseStatus(status, EMPTY).value;
    var h := base.(headers := base.headers + m);
    var block := StringUtil.Join([status] + HeaderLines(m, order), CRLF);
    var stream := block + HEADER_END + body;
    HeaderMapRoundTrip(status, EMPTY, m, order, body);
    StatusStoresVersion(status);
    NumeralRoundTrip(|body|, "");
    assert Numeral(|body|, 10) + "" == Numeral(|body|, 10);
    assert stream[|block| + 4..] == body;
    WholeResponse(parts, stream, h, |block| + 4, allowRedirect);
  }

  lemma StatusStoresVersion(status: string)
    ensures ParseStatus(status, EMPTY).Some? ==> ParseStatus(status, EMPTY).value.headers.Keys <= {"Version"}
  {
  }

  lemma HeaderFits(stream: string, h: ResponseHeader, size: nat, allowRedirect: bool)
    requires HeaderAt(stream, h, size, allowRedirect)
    ensures 4 <= size <= |stream|
  {
    HeaderNotEmpty(stream, h, size);
  }

  /** A body followed by further bytes: exactly the body is delivered if and only if the closing read
      ends where the body ends, because that read is passed on whole. */
  lemma SurplusExact(parts: seq<string>, stream: string, h: ResponseHeader, size: nat, allowRedirect: bool)
    requires HeaderAt(stream, h, size, allowRedirect)
    requires !("Transfer-Encoding" in h.headers && h.headers["Transfer-Encoding"] == "chunked")
    requires ContentLength(h.headers).value >= 0
    requires var n := ContentLength(h.headers).value;
             Concat(parts) <= stream && |Concat(parts)| >= size + n && StillOpen(parts, size + n)
    requires forall i | 0 <= i < |parts| :: parts[i] != ""
    ensures var n := ContentLength(h.headers).value;
            && Feed(parts, allowRedirect).outcome == Close
            && (PayloadOf(Feed(parts, allowRedirect).events) == stream[size..size + n]
                <==> |Concat(parts)| == size + n)
  {
    hide TransferCoding;
    FeedIdentity(parts, stream, h, size, allowRedirect);
  }

  /** Without a Content-Length the response has no end of its own: whatever has arrived is delivered, and
      reading goes on. */
  lemma NoLengthStaysOpen(parts: seq<string>, h: ResponseHeader, size: nat, allowRedirect: bool)
    requires ParseHeader(Concat(parts), EMPTY) == Parsed(h, size)
    requires !(allowRedirect && h.httpStatusCode in {301, 302})
    requires "Content-Length" !in h.headers
    requires !("Transfer-Encoding" in h.headers && h.headers["Transfer-Encoding"] == "chunked")
    requires |Concat(parts)| < size + 9223372036854775807 && forall i | 0 <= i < |parts| :: parts[i] != ""
    ensures Feed(parts, allowRedirect).outcome == Continue
    ensures Reassembled(Feed(parts, allowRedirect).events, h, Concat(parts)[size..])
  {
    hide Feed, ParseHeader, ContentLength, TransferCoding, Reassembled;
    FieldsDecide(h.headers);
    forall k | 0 <= k < |parts|
      ensures |Concat(parts[..k])| < size + 9223372036854775807
    {
      PrefixesAreShorter(parts, k);
    }
    HeaderNotEmpty(Concat(parts), h, size);
    FeedIdentity(parts, Concat(parts), h, size, allowRedirect);
    assert Concat(parts)[size..|Concat(parts)|] == Concat(parts)[size..];
  }

  // ---------- A chunked response ----------

  /** The reads as the chunk decoder gets them: the first is what was behind the header. */
  function BodyParts(parts: seq<string>, size: nat): seq<string> {
    if parts == [] || |Concat(parts)| < size then []
    else
      var n := |parts| - 1;
      if |Concat(parts[..n])| < size then [Concat(parts)[size..]]
      else BodyParts(parts[..n], size) + [parts[n]]
  }

  lemma {:induction false} BodyPartsAre(parts: seq<string>, size: nat)
    requires |Concat(parts)| >= size > 0
    requires forall i | 0 <= i < |parts| :: parts[i] != ""
    ensures BodyParts(parts, size) != []
    ensures Concat(BodyParts(parts, size)) == Concat(parts)[size..]
    ensures forall i | 0 < i < |BodyParts(parts, size)| :: BodyParts(parts, size)[i] != ""
  {
    var n := |parts| - 1;
    if |Concat(parts[..n])| < size {
      var only := [Concat(parts)[size..]];
      assert only[..0] == [] && Concat(only) == Concat([]) + only[0];
    } else {
      BodyPartsAre(parts[..n], size);
      var init := BodyParts(parts[..n], size);
      assert (init + [parts[n]])[..|init|] == init;
    }
  }

  lemma PayloadStep(events: seq<Event>, bytes: string)
    ensures PayloadOf(events + [OnData(bytes)]) == PayloadOf(events) + bytes
  {
    assert (events + [OnData(bytes)])[..|events|] == events;
  }

  lemma {:induction false} PayloadOfData(first: seq<Event>, payloads: seq<string>)
    ensures PayloadOf(first + DataEvents(payloads)) == PayloadOf(first) + Concat(payloads)
  {
    hide PayloadOf;
    if payloads == [] {
      assert first + DataEvents(payloads) == first;
    } else {
      var n := |payloads| - 1;
      PayloadOfData(first, payloads[..n]);
      PayloadStep(first + DataEvents(payloads[..n]), payloads[n]);
      assert first + DataEvents(payloads) == first + DataEvents(payloads[..n]) + [OnData(payloads[n])];
    }
  }

  lemma {:induction false} PayloadAppend(a: seq<Event>, b: seq<Event>)
    ensures PayloadOf(a + b) == PayloadOf(a) + PayloadOf(b)
  {
    if b == [] {
      assert a + b == a;
    } else {
      var n := |b| - 1;
      assert (a + b)[..|a| + n] == a + b[..n];
      PayloadAppend(a, b[..n]);
    }
  }

  lemma {:induction false} NoPayload(events: seq<Event>)
    requires forall i | 0 <= i < |events| :: !events[i].OnData?
    ensures PayloadOf(events) == ""
  {
    if events != [] {
      NoPayload(events[..|events| - 1]);
    }
  }

  /** A user who has set the handler for data sees all of them, whatever else he has set. */
  lemma {:induction false} PayloadSeen(h: Handlers, points: seq<Event>)
    ensures PayloadOf(Observed(h, points)) == if h.data then PayloadOf(points) else ""
  {
    hide Calls;
    if points != [] {
      var n := |points| - 1;
      PayloadSeen(h, points[..n]);
      ObservedOne(h, points[n]);
      PayloadAppend(Observed(h, points[..n]), if Calls(h, points[n]) then [points[n]] else []);
    }
  }

  lemma ObservedOne(h: Handlers, e: Event)
    ensures PayloadOf(if Calls(h, e) then [e] else []) == if h.data && e.OnData? then e.bytes else ""
  {
    assert [e][..0] == [];
  }

  lemma DataEventsAppend(a: seq<string>, b: seq<string>)
    ensures DataEvents(a + b) == DataEvents(a) + DataEvents(b)
  {
  }

  /** The state between reads of a chunked body: nothing is buffered. */
  ghost predicate ChunkedState(s: Receiver, d: Run) {
    s.headerDone && s.transferCoding == "chunked" && s.buffer == "" && s.chunkSize == d.chunkSize
  }

  lemma DeliverChunked(s: Receiver, d: Run, bytes: string)
    requires d.status.NeedMore? && ChunkedState(s, d)
    ensures var r := Deliver(s, bytes);
            var d' := Fed(d, bytes);
            && DataEvents(d'.deliveries) == DataEvents(d.deliveries) + r.events
            && r.outcome == OutcomeOf(d'.status)
            && (d'.status.NeedMore? ==> ChunkedState(r.state, d'))
  {
    hide Decode;
    Conserves(bytes, s.chunkSize);
    assert "" + bytes == bytes;
    DataEventsAppend(d.deliveries, Deliveries(Decode(bytes, s.chunkSize).segments));
  }

  /** The receiver hands a chunked body to the chunk decoder, read by read. */
  lemma {:induction false} FeedChunked(parts: seq<string>, stream: string, h: ResponseHeader, size: nat,
                                       allowRedirect: bool)
    requires HeaderAt(stream, h, size, allowRedirect)
    requires "Transfer-Encoding" in h.headers && h.headers["Transfer-Encoding"] == "chunked"
    requires Concat(parts) <= stream && |Concat(parts)| >= size
    ensures var f := Feed(parts, allowRedirect);
            var d := DecodeAll(BodyParts(parts, size), INVALID);
            && f.events == [OnParseHeaderDone(h)] + DataEvents(d.deliveries)
            && f.outcome == OutcomeOf(d.status)
            && (d.status.NeedMore? ==> ChunkedState(f.state, d))
  {
    hide ParseHeader, ContentLength, TransferCoding, Deliver, Fed, Feed, DecodeAll, BodyParts;
    FieldsDecide(h.headers);
    HeaderFits(stream, h, size, allowRedirect);
    var n := |parts| - 1;
    var init, bytes := parts[..n], parts[n];
    if |Concat(init)| < size {
      FeedAtHeader(parts, stream, h, size, allowRedirect);
      var first := Concat(parts)[size..];
      var s := Receiver("", true, ContentLength(h.headers).value, 0, TransferCoding(h.headers), INVALID);
      var d := Run([], INVALID, Status.NeedMore);
      DeliverChunked(s, d, first);
      BodyPartsFirst(parts, size);
      assert DataEvents([]) == [];
    } else {
      FeedChunked(init, stream, h, size, allowRedirect);
      var d := DecodeAll(BodyParts(init, size), INVALID);
      var f := Feed(init, allowRedirect);
      BodyPartsNext(parts, size);
      FedStops(d, bytes);
      assert parts == init + [bytes];
      FeedStep(init, bytes, allowRedirect);
      if d.status.NeedMore? {
        DeliverChunked(f.state, d, bytes);
      }
    }
  }

  lemma BodyPartsFirst(parts: seq<string>, size: nat)
    requires parts != [] && |Concat(parts)| >= size > |Concat(parts[..|parts| - 1])|
    ensures DecodeAll(BodyParts(parts, size), INVALID)
            == Fed(Run([], INVALID, Status.NeedMore), Concat(parts)[size..])
  {
    hide Fed;
    var only := [Concat(parts)[size..]];
    assert only[..0] == [];
  }

  lemma BodyPartsNext(parts: seq<string>, size: nat)
    requires parts != [] && |Concat(parts[..|parts| - 1])| >= size
    ensures DecodeAll(BodyParts(parts, size), INVALID)
            == Fed(DecodeAll(BodyParts(parts[..|parts| - 1], size), INVALID), parts[|parts| - 1])
  {
    hide Fed;
    var init := BodyParts(parts[..|parts| - 1], size);
    assert (init + [parts[|parts| - 1]])[..|init|] == init;
  }

  lemma FedStops(d: Run, bytes: string)
    ensures !d.status.NeedMore? ==> Fed(d, bytes) == d
  {
  }

  lemma CutSnoc(init: seq<string>, r: string, n: nat)
    ensures CutAt(init + [r], n) <==> CutAt(init, n) || n == |Concat(init)| + |r|
  {
    var parts := init + [r];
    assert forall i | 0 <= i <= |init| :: parts[..i] == init[..i];
    assert parts[..|parts|] == parts;
    ConcatStep(init, r);
    if CutAt(init, n) {
      var i :| 0 < i <= |init| && |Concat(init[..i])| == n;
      assert |Concat(parts[..i])| == n;
    }
    if n == |Concat(init)| + |r| {
      assert |Concat(parts[..|parts|])| == n;
    }
  }

  lemma NoLaterCut(parts: seq<string>, n: nat)
    ensures n > |Concat(parts)| ==> !CutAt(parts, n)
  {
    forall i | 0 < i <= |parts|
      ensures |Concat(parts[..i])| <= |Concat(parts)|
    {
      ConcatMonotone(parts, i);
    }
  }

  /** Behind the header the chunk decoder's reads end where the reads end. */
  lemma {:induction false} BodyPartsLater(parts: seq<string>, size: nat)
    requires |Concat(parts)| >= size > 0
    ensures Later(BodyParts(parts, size), parts, size)
  {
    hide CutAt;
    var n := |parts| - 1;
    var init, r := parts[..n], parts[n];
    assert parts == init + [r];
    ConcatStep(init, r);
    forall k: nat | k > 0
      ensures CutAt(BodyParts(parts, size), k) <==> CutAt(parts, size + k)
    {
      CutSnoc(init, r, size + k);
      if |Concat(init)| < size {
        var only := Concat(parts)[size..];
        NoLaterCut(init, size + k);
        CutSnoc([], only, k);
        assert [] + [only] == [only];
        NoLaterCut([], k);
      } else {
        BodyPartsLater(init, size);
        CutSnoc(BodyParts(init, size), r, k);
        BodyPartsLength(init, size);
      }
    }
  }

  lemma {:induction false} BodyPartsLength(parts: seq<string>, size: nat)
    requires |Concat(parts)| >= size > 0
    ensures |Concat(BodyParts(parts, size))| == |Concat(parts)| - size
  {
    var n := |parts| - 1;
    if |Concat(parts[..n])| < size {
      var only := [Concat(parts)[size..]];
      assert only[..0] == [] && Concat(only) == Concat([]) + only[0];
    } else {
      BodyPartsLength(parts[..n], size);
      ConcatStep(BodyParts(parts[..n], size), parts[n]);
    }
  }

  /** A chunked response under fragmentation, however much of it has arrived: it is closed if and only if
      everything up to the end of the last-chunk line has arrived and every cut behind the header is
      allowed, and delivered whole if and only if, besides, every chunk entered skewed consists of line
      breaks only. It kills the process, or is reported as an error, by where the first cut that is not
      allowed falls. */
  lemma ChunkedResponse(parts: seq<string>, h: ResponseHeader, size: nat, allowRedirect: bool,
                        chunks: seq<Chunk>, last: string, tail: string)
    requires HeaderAt(Concat(parts), h, size, allowRedirect)
    requires "Transfer-Encoding" in h.headers && h.headers["Transfer-Encoding"] == "chunked"
    requires AllFramed(chunks) && SizeLineFor(last, 0)
    requires size <= |Concat(parts)| && Concat(parts)[size..] <= Encode(chunks, last, tail)
    requires forall i | 0 <= i < |parts| :: parts[i] != ""
    ensures var f := Feed(parts, allowRedirect);
            var finished := && |Concat(parts)| >= size + |Encode(chunks, last, "")|
                            && CutsAllowed(chunks, last, parts, size);
            && |f.events| > 0 && f.events[0] == OnParseHeaderDone(h)
            && (f.outcome == Close <==> finished)
            && (f.outcome == Close && PayloadOf(f.events) == DataOf(chunks)
                <==> finished && DataSurvive(chunks, parts, size))
            && (f.outcome == Crash <==> CutThrows(chunks, parts, size))
            && (f.outcome == ChunkError <==> CutErrs(chunks, last, parts, size))
  {
    hide Feed, DecodeAll, CutsAllowed, CutThrows, CutErrs, DataSurvive, BodyParts, Encode, DataOf, HeaderAt, PayloadOf,
         Later;
    HeaderFits(Concat(parts), h, size, allowRedirect);
    FeedChunked(parts, Concat(parts), h, size, allowRedirect);
    BodyPartsAre(parts, size);
    DecodesInBytes(chunks, BodyParts(parts, size), INVALID, last, tail);
    BodyPartsLater(parts, size);
    AllowedLater(chunks, last, BodyParts(parts, size), parts, size, 0);
    BodyPartsLength(parts, size);
    var d := DecodeAll(BodyParts(parts, size), INVALID);
    PayloadOfData([OnParseHeaderDone(h)], d.deliveries);
    NoPayloadInHeader(h);
  }

  /** From the printed response to the calls: any storable header map with Transfer-Encoding chunked, printed
      in any order behind a status line, followed by an encoded body and cut anywhere. */
  lemma ChunkedRoundTrip(status: string, m: Headers, order: seq<string>, chunks: seq<Chunk>, last: string, tail: string,
                         parts: seq<string>, allowRedirect: bool)
    requires Readable(status, m, order, allowRedirect)
    requires "Transfer-Encoding" in m && m["Transfer-Encoding"] == "chunked" && !UnreadableLength(m)
    requires AllFramed(chunks) && SizeLineFor(last, 0)
    requires forall i | 0 <= i < |parts| :: parts[i] != ""
    requires Concat(parts) == StringUtil.Join([status] + HeaderLines(m, order), "\r\n") + "\r\n\r\n"
                              + Encode(chunks, last, tail)
    ensures var base := ParseStatus(status, EMPTY).value;
            var size := |StringUtil.Join([status] + HeaderLines(m, order), "\r\n")| + 4;
            var f := Feed(parts, allowRedirect);
            && |f.events| > 0 && f.events[0] == OnParseHeaderDone(base.(headers := base.headers + m))
            && base.headers.Keys <= {"Version"}
            && (f.outcome == Close <==> CutsAllowed(chunks, last, parts, size))
            && (f.outcome == Close && PayloadOf(f.events) == DataOf(chunks)
                <==> CutsAllowed(chunks, last, parts, size) && DataSurvive(chunks, parts, size))
  {
    hide Feed, ParseHeader, Storable, HeaderLines, Stoll, ParseStatus, Encode, CutsAllowed, DataSurvive, CutThrows,
         CutErrs, PayloadOf, DataOf, AllFramed, SizeLineFor;
    var base := ParseStatus(status, EMPTY).value;
    var h := base.(headers := base.headers + m);
    var block := StringUtil.Join([status] + HeaderLines(m, order), CRLF);
    var body := Encode(chunks, last, tail);
    var stream := block + HEADER_END + body;
    HeaderMapRoundTrip(status, EMPTY, m, order, body);
    StatusStoresVersion(status);
    FieldsDecide(h.headers);
    assert stream[|block| + 4..] == body;
    EncodeEnds(chunks, last, tail);
    ChunkedResponse(parts, h, |block| + 4, allowRedirect, chunks, last, tail);
  }

  lemma NoPayloadInHeader(h: ResponseHeader)
    ensures PayloadOf([OnParseHeaderDone(h)]) == ""
  {
    assert [OnParseHeaderDone(h)][..0] == [];
  }

  // ---------- What `receive` does not survive ----------

  /** The decoder has thrown exactly when some read left it at an unreadable size line. */
  lemma {:induction false} DecoderThrowsExact(parts: seq<string>, chunkSize: int)
    ensures DecodeAll(parts, chunkSize).status.Throws? <==>
              exists k :: 0 <= k < |parts| && ThrowsAt(parts, k, chunkSize)
  {
    hide Decode, Unreadable;
    if parts != [] {
      var n := |parts| - 1;
      var d := DecodeAll(parts[..n], chunkSize);
      DecoderThrowsExact(parts[..n], chunkSize);
      Chunked.ThrowsExact(parts[n], d.chunkSize);
      assert forall k | 0 <= k <= n :: parts[..n][..k] == parts[..k];
      assert forall k | 0 <= k < n :: ThrowsAt(parts[..n], k, chunkSize) <==> ThrowsAt(parts, k, chunkSize);
      if d.status.NeedMore? && Decode(parts[n], d.chunkSize).status.Throws? {
        assert ThrowsAt(parts, n, chunkSize);
      }
    }
  }

  /** The k-th read goes to the decoder and leaves it at an unreadable size line. */
  ghost predicate ThrowsAt(parts: seq<string>, k: nat, chunkSize: int)
    requires k < |parts|
  {
    var d := DecodeAll(parts[..k], chunkSize);
    d.status.NeedMore? && Unreadable(Decode(parts[k], d.chunkSize).rest)
  }

  /** Content-Length is there, and std::stoll finds no number in range at its front. */
  predicate UnreadableLength(h: Headers) {
    "Content-Length" in h && Stoll(h["Content-Length"]).None?
  }

  /** The reads on which the process dies: the header cannot be parsed; or it is not redirected and its
      Content-Length cannot be read; or the body is chunked and a size line cannot be read. */
  ghost predicate Dies(parts: seq<string>, allowRedirect: bool) {
    match ParseHeader(Concat(parts), EMPTY)
    case NeedMore => false
    case Throws => true
    case Parsed(h, size) =>
      && !(allowRedirect && h.httpStatusCode in {301, 302})
      && (UnreadableLength(h.headers)
          || ("Transfer-Encoding" in h.headers && h.headers["Transfer-Encoding"] == "chunked"
              && exists k :: 0 <= k < |BodyParts(parts, size)| && ThrowsAt(BodyParts(parts, size), k, INVALID)))
  }

  lemma WaitsBefore(init: string, more: string)
    ensures ParseHeader(init + more, EMPTY).NeedMore? ==> ParseHeader(init, EMPTY).NeedMore?
    ensures !ParseHeader(init, EMPTY).NeedMore? ==> ParseHeader(init + more, EMPTY) == ParseHeader(init, EMPTY)
  {
    hide ParseHeader;
    if !ParseHeader(init, EMPTY).NeedMore? {
      ParseIgnoresTail(init, more, EMPTY);
    }
  }

  lemma {:induction false} FeedWaits(parts: seq<string>, allowRedirect: bool)
    requires ParseHeader(Concat(parts), EMPTY).NeedMore?
    ensures Feed(parts, allowRedirect) == Reaction(START.(buffer := Concat(parts)), [], Continue)
  {
    hide ParseHeader, Headed, Deliver;
    if parts != [] {
      var n := |parts| - 1;
      WaitsBefore(Concat(parts[..n]), parts[n]);
      FeedWaits(parts[..n], allowRedirect);
    }
  }

  /** The read that completes the blank line decides what becomes of the header, for good. */
  lemma {:induction false} FeedHeaderFails(parts: seq<string>, allowRedirect: bool)
    ensures match ParseHeader(Concat(parts), EMPTY)
            case NeedMore => true
            case Throws => Feed(parts, allowRedirect).outcome.Crash?
            case Parsed(h, size) =>
              && (h.IsNeedRedirect() && allowRedirect ==> Feed(parts, allowRedirect).outcome.Redirect?)
              && (!(h.IsNeedRedirect() && allowRedirect) && ContentLength(h.headers).None? ==>
                  Feed(parts, allowRedirect).outcome.Crash?)
  {
    hide ParseHeader, Deliver, ContentLength;
    if parts == [] {
      NothingParsed();
    } else {
      var n := |parts| - 1;
      WaitsBefore(Concat(parts[..n]), parts[n]);
      if ParseHeader(Concat(parts[..n]), EMPTY).NeedMore? {
        FeedWaits(parts[..n], allowRedirect);
      } else {
        FeedHeaderFails(parts[..n], allowRedirect);
      }
    }
  }

  lemma NothingParsed()
    ensures ParseHeader("", EMPTY).NeedMore?
  {
  }

  lemma {:induction false} PlainSurvives(parts: seq<string>, h: ResponseHeader, size: nat, allowRedirect: bool)
    requires HeaderAt(Concat(parts), h, size, allowRedirect)
    requires !("Transfer-Encoding" in h.headers && h.headers["Transfer-Encoding"] == "chunked")
    ensures var f := Feed(parts, allowRedirect);
            f.outcome in {Continue, Close} && f.state.transferCoding == TransferCoding(h.headers) && f.state.headerDone
  {
    hide ParseHeader, ContentLength, TransferCoding;
    FieldsDecide(h.headers);
    if parts == [] {
      NothingParsed();
    } else {
      var n := |parts| - 1;
      WaitsBefore(Concat(parts[..n]), parts[n]);
      if ParseHeader(Concat(parts[..n]), EMPTY).NeedMore? {
        FeedWaits(parts[..n], allowRedirect);
      } else {
        PlainSurvives(parts[..n], h, size, allowRedirect);
      }
    }
  }

  /** The process dies of an uncaught exception exactly on these reads. */
  lemma CrashExact(parts: seq<string>, allowRedirect: bool)
    ensures Feed(parts, allowRedirect).outcome.Crash? <==> Dies(parts, allowRedirect)
  {
    hide ParseHeader, Feed, TransferCoding, ThrowsAt, DecodeAll, BodyParts;
    match ParseHeader(Concat(parts), EMPTY)
    case NeedMore =>
      FeedWaits(parts, allowRedirect);
    case Throws =>
      FeedHeaderFails(parts, allowRedirect);
    case Parsed(h, size) =>
      FeedHeaderFails(parts, allowRedirect);
      if HeaderAt(Concat(parts), h, size, allowRedirect) {
        FieldsDecide(h.headers);
        if "Transfer-Encoding" in h.headers && h.headers["Transfer-Encoding"] == "chunked" {
          HeaderEndsInside(Concat(parts), EMPTY);
          FeedChunked(parts, Concat(parts), h, size, allowRedirect);
          DecoderThrowsExact(BodyParts(parts, size), INVALID);
        } else {
          PlainSurvives(parts, h, size, allowRedirect);
        }
      }
  }

}
