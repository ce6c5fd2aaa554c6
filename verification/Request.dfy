/** `Request`: one HTTP exchange on its worker thread, redirects included, while another thread may
    cancel it between any two steps. */
module Requests {
  import opened Text
  import Numbers
  import ResponseHeaders
  import opened Chunked
  import opened Trace
  import opened Receivers
  import opened Transport
  import RequestEncoder
  import Urls
  import opened Runs

  class Request {
    const info: RequestEncoder.RequestInfo
    const handlers: Handlers
    const world: World
    const startStamp: nat

    var redirectCount: nat
    var isValid: bool
    var url: Urls.Url?
    var hasSocket: bool
    /** The socket is a TLS one, and OpenSSL gave it a session. */
    var tls: bool
    var ssl: bool
    /** An exception has left a noexcept function: the process is gone. */
    var crashed: bool
    /** The calls made to the user's handlers. */
    var log: seq<Event>

    /** The points at which handlers are called, set or not: before the cancel, and after it. */
    ghost var made: seq<Event>
    ghost var after: seq<Event>
    /** How many redirects were followed. */
    ghost var redirects: nat
    /** Connection attempts made after the cancel. */
    ghost var late: nat

    ghost function Past(): History
      reads `isValid, `made, `after
    {
      History(isValid, made, after)
    }

    ghost predicate Inv()
      reads `isValid, `made, `after, `log, `redirects, `redirectCount
    {
      && Past().Proper()
      && log == Observed(handlers, Past().Points())
      && redirectCount == redirects % 256
    }

    ghost function Terms(): Setup {
      Setup(info.methodType, info.body, info.isAllowRedirect, info.timeout, startStamp)
    }

    ghost function Line(): Link
      reads `isValid, world
    {
      Link(world.waited, world.moved, world.closed, !isValid)
    }

    /** The socket is there, and is the one the environment recorded. */
    ghost predicate Wired()
      reads `hasSocket, `tls, `ssl, world`socket
    {
      hasSocket && world.socket == if tls then TlsSocket(ssl) else PlainSocket
    }

    constructor (info: RequestEncoder.RequestInfo, handlers: Handlers, world: World, startStamp: nat)
      ensures Fresh()
      ensures this.info == info && this.handlers == handlers && this.world == world && this.startStamp == startStamp
    {
      this.info, this.handlers, this.world, this.startStamp := info, handlers, world, startStamp;
      redirectCount, isValid, url, hasSocket, tls, ssl, crashed := 0, true, null, false, false, false, false;
      log, made, after := [], [], [];
      redirects, late := 0, 0;
    }

    ghost predicate Fresh()
      reads this
    {
      Inv() && Past() == NOTHING && !crashed && redirects == late == 0
    }

    /** `cancel`, from any thread. */
    method Cancel()
      requires Inv()
      modifies `isValid
      ensures Inv() && !isValid
    {
      hide Quiet, Observed;
      if isValid {
        ObservedStep(handlers, made, Cancelled);
        assert made + [Cancelled] + after == made + [Cancelled];
      }
      isValid := false;
    }

    /** A moment at which the other thread may run. */
    method Yield()
      requires Inv()
      modifies `isValid, world`script
      ensures Inv() && world.script == From(old(world.script), 1)
      ensures isValid <==> old(isValid) && !Nth(old(world.script), 0).cancel
      ensures Adds(old(Past()), Past(), [])
    {
      hide Quiet, Inv, Adds;
      var a := world.Ask();
      if a.cancel {
        Cancel();
      }
      AddsOnlyCancel(old(Past()), Past());
    }

    /** Calls the handler of `e`, when it is set; a guarded call after the cancel must follow it directly. */
    method Call(e: Event)
      requires Inv() && !e.Cancelled? && (!isValid && Guarded(e) ==> after == [])
      modifies `made, `after, `log
      ensures Inv()
      ensures if isValid then made == old(made) + [e] && after == old(after)
              else made == old(made) && after == old(after) + [e]
      ensures log == old(log) + if Calls(handlers, e) then [e] else []
    {
      hide Quiet, Observed;
      ObservedStep(handlers, Past().Points(), e);
      if isValid {
        made := made + [e];
      } else {
        assert made + [Cancelled] + (after + [e]) == made + [Cancelled] + after + [e];
        after := after + [e];
      }
      if Calls(handlers, e) {
        log := log + [e];
      }
    }

    /** responseHeader, responseData and disconnected: the check, then the call, as two steps. A cancel
        before the check suppresses the call, one between the two does not. */
    method CallIfValid(e: Event) returns (called: bool)
      requires Inv() && Guarded(e)
      modifies `isValid, `made, `after, `log, world`script
      ensures Inv() && |world.script| <= |old(world.script)|
      ensures Steady(old(isValid), old(world.script), isValid, world.script)
      ensures Adds(old(Past()), Past(), [e])
      ensures isValid ==> called
      ensures old(isValid) && !isValid ==> made == old(made) && after == if called then [e] else []
      ensures old(isValid) ==> (called <==> !Nth(old(world.script), 0).cancel)
      ensures !old(isValid) ==> !called && Past() == old(Past())
    {
      hide Quiet, Inv, Adds;
      NothingAfter();
      Yield();
      called := isValid;
      if called {
        Yield();
        Call(e);
      }
      AddsGuarded(old(Past()), Past(), e, called);
    }

    lemma NothingAfter()
      requires Inv()
      ensures isValid ==> after == []
    {
    }

    /** onConnected and onError: called without looking at the validity. */
    method CallAlways(e: Event)
      requires Inv() && !Guarded(e) && !e.Cancelled?
      modifies `isValid, `made, `after, `log, world`script
      ensures Inv() && |world.script| <= |old(world.script)|
      ensures Steady(old(isValid), old(world.script), isValid, world.script)
      ensures Adds(old(Past()), Past(), [e])
      ensures !isValid ==> made == old(made) && after == old(after) + [e]
    {
      hide Quiet, Inv, Adds;
      Yield();
      Call(e);
      AddsUnguarded(old(Past()), Past(), e);
    }

    /** `disconnected`; the socket goes with the call. */
    method Disconnect()
      requires Inv()
      modifies this`isValid, this`made, this`after, this`log, this`hasSocket, world`script
      ensures Inv() && |world.script| <= |old(world.script)|
      ensures Steady(old(isValid), old(world.script), isValid, world.script)
      ensures Adds(old(Past()), Past(), [OnDisconnected])
      ensures isValid && handlers.disconnected ==> !hasSocket
      ensures !old(isValid) ==> Past() == old(Past()) && hasSocket == old(hasSocket)
    {
      hide Quiet, Inv;
      var called := CallIfValid(OnDisconnected);
      if called && handlers.disconnected {
        hasSocket := false;
      }
    }

    method HandleErrorResponse(code: ResultCode, errorCode: int)
      requires Inv()
      modifies this`isValid, this`made, this`after, this`log, this`hasSocket, world`script
      ensures Inv() && |world.script| <= |old(world.script)|
      ensures Steady(old(isValid), old(world.script), isValid, world.script)
      ensures Adds(old(Past()), Past(), [OnError(code, errorCode), OnDisconnected])
      ensures isValid && handlers.disconnected ==> !hasSocket
      ensures !old(isValid) ==> after == old(after) + [OnError(code, errorCode)] && hasSocket == old(hasSocket)
    {
      hide Quiet, Inv;
      CallAlways(OnError(code, errorCode));
      ghost var middle := Past();
      Disconnect();
      AddsMore(old(Past()), middle, Past(), [OnError(code, errorCode)], [OnDisconnected]);
      assert [OnError(code, errorCode)] + [OnDisconnected] == [OnError(code, errorCode), OnDisconnected];
    }

    method GetRemainTime() returns (t: nat)
      modifies world`script
      ensures world.script == From(old(world.script), 1)
      ensures t == Remain(info.timeout, Nth(old(world.script), 0).clock, startStamp)
    {
      var a := world.Ask();
      t := Remain(info.timeout, a.clock, startStamp);
    }

    /** `connect`, `canSend` and `canReceive` on a socket that is still there. */
    method Select() returns (result: SocketResult)
      requires hasSocket
      modifies world`script, world`waited
      ensures world.script == From(old(world.script), 1)
      ensures var a := Nth(old(world.script), 0); result == world.waited == SocketResult(a.code, a.errorCode)
      ensures result.resultCode != Failed ==> |world.script| < |old(world.script)|
    {
      result := world.Select();
    }

    /** True when data can be read; otherwise the run has been brought to its end. */
    method IsReceivable() returns (ok: bool)
      requires Inv() && hasSocket
      modifies this`isValid, this`made, this`after, this`log, this`hasSocket, world`script, world`waited
      ensures Inv() && |world.script| <= |old(world.script)|
      ensures Steady(old(isValid), old(world.script), isValid, world.script)
      ensures ok <==> old(isValid) && Await(old(world.script), info.timeout, startStamp).Ready?
      ensures ok ==> isValid && hasSocket && Past() == old(Past()) && |world.script| < |old(world.script)|
      ensures ok ==> world.waited.IsSuccess()
      ensures !ok ==>
                var w := Await(old(world.script), info.timeout, startStamp);
                if old(isValid) && w.Lost?
                then
                  && world.waited == w.result && !w.result.IsSuccess()
                  && Adds(old(Past()), Past(), ErrorCalls(w.result))
                else !isValid && Adds(old(Past()), Past(), [])
    {
      hide Quiet, Inv, Adds, From, Nth;
      AddsNothing(Past());
      while true
        invariant Inv() && hasSocket && |world.script| <= |old(world.script)|
        invariant Past() == old(Past()) && Steady(old(isValid), old(world.script), isValid, world.script)
        invariant isValid ==> Await(old(world.script), info.timeout, startStamp)
                              == Await(world.script, info.timeout, startStamp)
        decreases |world.script|
      {
        AwaitStep(world.script, info.timeout, startStamp);
        Answers(world.script, 4);
        Yield();
        if !isValid {
          ghost var middle := Past();
          Disconnect();
          AddsNoMore(old(Past()), middle, Past(), OnDisconnected);
          return false;
        }
        var timeout := GetRemainTime();
        var canReceive := Select();
        if canReceive.IsSuccess() {
          return true;
        }
        timeout := GetRemainTime();
        if timeout > 0 && canReceive.resultCode == Retry {
          continue;
        }
        HandleErrorResponse(canReceive.resultCode, canReceive.errorCode);
        return false;
      }
    }

    /** parseChunk: the decoding loop, with the calls it makes. */
    method ParseChunk(view: string, size: int) returns (dataView: string, chunkSize: int, status: Status)
      requires Inv()
      modifies this`isValid, this`made, this`after, this`log, this`hasSocket, world`script
      ensures Inv() && |world.script| <= |old(world.script)|
      ensures Steady(old(isValid), old(world.script), isValid, world.script)
      ensures status.NeedMore? ==> hasSocket == old(hasSocket)
      ensures var s := Decode(view, size);
              && dataView == s.rest && chunkSize == s.chunkSize && status == s.status
              && Adds(old(Past()), Past(), DataEvents(Deliveries(s.segments)) + ErrorEnd(OutcomeOf(status)))
    {
      hide Quiet, Decode, Find, Numbers.StolHex, Break, Stripped, After, Deliveries, DataEvents, Inv, Adds;
      dataView, chunkSize, status := view, size, Status.NeedMore;
      ghost var done: seq<Segment> := [];
      AfterNothing(Decode(view, size));
      AddsNothing(Past());
      while dataView != ""
        invariant Inv() && |world.script| <= |old(world.script)| && status.NeedMore?
        invariant Steady(old(isValid), old(world.script), isValid, world.script)
        invariant Decode(view, size) == After(done, Decode(dataView, chunkSize))
        invariant Adds(old(Past()), Past(), DataEvents(Deliveries(done)))
        invariant hasSocket == old(hasSocket)
        decreases |dataView|
      {
        DecodeStops(dataView, chunkSize);
        ghost var step, middle := LineBreak, Past();
        if chunkSize <= 0 {
          var pos := Find(dataView, CRLF, 0);
          if pos.None? {
            AfterEnd(done, Decode(dataView, chunkSize));
            ghost var middle := Past();
            HandleErrorResponse(ChunkSizeError, 0);
            AddsMore(old(Past()), middle, Past(), DataEvents(Deliveries(done)),
                     [OnError(ChunkSizeError, 0), OnDisconnected]);
            status := SizeError;
            break;
          }
          var number := Numbers.StolHex(dataView[..pos.value]);
          if number.None? {
            AfterEnd(done, Decode(dataView, chunkSize));
            status := Status.Throws;
            break;
          }
          if number.value == 0 {
            AfterEnd(done, Decode(dataView, chunkSize));
            chunkSize := 0;
            status := Status.Completed;
            break;
          }
          DecodeSizeLine(dataView, chunkSize, pos.value, number.value);
          step := SizeLine(dataView[..pos.value + 2], number.value);
          AddsNothing(Past());
          chunkSize := number.value;
          dataView := dataView[pos.value + 2..];
        } else {
          var n := Min(chunkSize, |dataView|);
          DecodePayload(dataView, chunkSize);
          step := Payload(dataView[..n]);
          var _ := CallIfValid(OnData(dataView[..n]));
          dataView := dataView[n..];
          chunkSize := chunkSize - n;
        }
        MoreDone(done, step, dataView, Decode(Stripped(dataView), chunkSize));
        AddsMore(old(Past()), middle, Past(), DataEvents(Deliveries(done)),
                 if step.Payload? then [OnData(step.bytes)] else []);
        done := done + ([step] + Break(dataView));
        if CRLF <= dataView {
          dataView := dataView[2..];
        }
      }
      if status.NeedMore? {
        DecodeStops(dataView, chunkSize);
        AfterEnd(done, Decode(dataView, chunkSize));
      }
      assert DataEvents(Deliveries(done)) + [] == DataEvents(Deliveries(done));
    }

    /** The body bytes of one read. */
    method DeliverBytes(s: Receiver, bytes: string) returns (r: Receiver, outcome: Outcome)
      requires Inv()
      modifies this`isValid, this`made, this`after, this`log, this`hasSocket, world`script
      ensures Inv() && |world.script| <= |old(world.script)|
      ensures Steady(old(isValid), old(world.script), isValid, world.script)
      ensures Reacts(Deliver(s, bytes), r, outcome)
      ensures Adds(old(Past()), Past(), Deliver(s, bytes).events + ErrorEnd(outcome))
      ensures outcome.Continue? ==> hasSocket == old(hasSocket)
    {
      hide Quiet, Decode, Deliveries, Inv, Adds;
      AddsNothing(Past());
      NoErrorEnd();
      var recvLength := s.recvLength + |bytes|;
      if s.transferCoding == "chunked" {
        var rest, chunkSize, status := ParseChunk(s.buffer + bytes, s.chunkSize);
        r := s.(recvLength := recvLength, buffer := rest, chunkSize := chunkSize);
        outcome := OutcomeOf(status);
      } else {
        var isCompleted := recvLength >= s.contentLength;
        if bytes != "" {
          var _ := CallIfValid(OnData(bytes));
        }
        r := s.(recvLength := recvLength);
        outcome := if isCompleted then Close else Continue;
      }
    }

    /** One successful read: header, redirect or body. */
    method OnBytes(s: Receiver, bytes: string) returns (r: Receiver, outcome: Outcome)
      requires Inv()
      modifies this`isValid, this`made, this`after, this`log, this`hasSocket, world`script
      ensures Inv() && |world.script| <= |old(world.script)|
      ensures Steady(old(isValid), old(world.script), isValid, world.script)
      ensures Reacts(OnRead(s, bytes, info.isAllowRedirect), r, outcome)
      ensures Adds(old(Past()), Past(), OnRead(s, bytes, info.isAllowRedirect).events + ErrorEnd(outcome))
      ensures outcome.Continue? ==> hasSocket == old(hasSocket)
    {
      hide Quiet, ResponseHeaders.ParseHeader, Deliver, ContentLength, TransferCoding, Inv, Adds, ErrorEnd;
      AddsNothing(Past());
      NoErrorEnd();
      if s.headerDone {
        r, outcome := DeliverBytes(s, bytes);
        return;
      }
      var data := s.buffer + bytes;
      var parsed := ResponseHeaders.ParseResponseHeader(data, ResponseHeaders.EMPTY);
      match parsed
      case NeedMore =>
        r, outcome := s.(buffer := data), Continue;
      case Throws =>
        r, outcome := s, Crash;
      case Parsed(h, size) =>
        HeaderEndsInside(data, ResponseHeaders.EMPTY);
        if h.IsNeedRedirect() && info.isAllowRedirect {
          return START, Redirect(Location(h.headers));
        }
        var contentLength := ContentLength(h.headers);
        if contentLength.None? {
          return START, Crash;
        }
        var _ := CallIfValid(OnParseHeaderDone(h));
        ghost var middle := Past();
        var first := Receiver("", true, contentLength.value, 0, TransferCoding(h.headers), INVALID);
        r, outcome := DeliverBytes(first, data[size..]);
        ghost var delivered := Deliver(first, data[size..]).events;
        AddsMore(old(Past()), middle, Past(), [OnParseHeaderDone(h)], delivered + ErrorEnd(outcome));
        assert [OnParseHeaderDone(h)] + (delivered + ErrorEnd(outcome))
            == [OnParseHeaderDone(h)] + delivered + ErrorEnd(outcome);
    }

    // ---------- Sending ----------

    /** The bytes go through the loop of the attempt's socket. */
    method SocketSend(view: string) returns (result: SocketResult, sendSize: int)
      requires Wired()
      modifies world`script, world`wire, world`calls, world`moved
      ensures var n := world.calls - old(world.calls);
              && Decides(world.socket, old(world.script), n) && world.script == From(old(world.script), n)
              && result == world.moved == ResultOf(world.socket, old(world.script), n, sendSize > 0, false)
              && (if sendSize < 0 then 0 else sendSize)
                 == (if n == 0 then 0 else Accepted(Nth(old(world.script), n - 1), |view|))
      ensures result.IsSuccess() <==> sendSize > 0
      ensures sendSize <= |view|
      ensures world.wire == old(world.wire) + if sendSize > 0 then view[..sendSize] else ""
      ensures |world.script| <= |old(world.script)| && (result.IsSuccess() ==> |world.script| < |old(world.script)|)
    {
      hide Quiet, From, Nth;
      if tls {
        result, sendSize := world.SslWrite(ssl, view);
      } else {
        result, sendSize := world.PlainSend(view);
      }
    }

    method SocketReceive() returns (result: SocketResult, data: string)
      requires Wired()
      modifies world`script, world`parts, world`calls, world`moved, world`closed
      ensures var n := world.calls - old(world.calls);
              && Decides(world.socket, old(world.script), n) && world.script == From(old(world.script), n)
              && result == world.moved == ResultOf(world.socket, old(world.script), n, data != "", true)
              && data == (if n == 0 then "" else Taken(Nth(old(world.script), n - 1)))
              && (world.closed <==> n > 0 && Nth(old(world.script), n - 1).ret >= 0 && data == "")
      ensures result.IsSuccess() <==> data != ""
      ensures result.resultCode == Disconnected <==> world.closed
      ensures result.resultCode != ResultCode.Completed
      ensures world.parts == old(world.parts) + if data == "" then [] else [data]
      ensures |world.script| <= |old(world.script)|
      ensures result.IsSuccess() || result.resultCode == Retry ==> |world.script| < |old(world.script)|
    {
      hide Quiet, From, Nth;
      if tls {
        result, data := world.SslRead(ssl);
      } else {
        result, data := world.PlainReceive();
      }
    }

    /** `send`: the printed request goes out piece by piece. However the transport behaves, what it has
        accepted is a prefix of the message, and all of it when the answer is true. */
    method Send() returns (ok: bool)
      requires Inv() && url != null && Wired() && world.wire == "" && !world.closed
      modifies this`isValid, this`made, this`after, this`log, this`hasSocket, info`headers
      modifies world`script, world`waited, world`wire, world`calls, world`moved
      ensures Inv() && |world.script| <= |old(world.script)|
      ensures Steady(old(isValid), old(world.script), isValid, world.script)
      ensures ok ==>
                && Past() == old(Past()) && hasSocket
                && IsRequest(world.wire, Terms(), url.Fields(), info.headers)
                && info.headers == RequestEncoder.Prepared(old(info.headers), info.body, url.Fields())
      ensures !ok ==>
                && SendFails(Line()) && Adds(old(Past()), Past(), SendCalls(Line()))
                && (var r := if world.waited.resultCode == Success then world.moved else world.waited;
                    SendCalls(Line()) == [OnError(r.resultCode, r.errorCode), OnDisconnected])
                && (world.wire == "" ||
                    StartsRequest(world.wire, Terms(), url.Fields(),
                                  RequestEncoder.Prepared(old(info.headers), info.body, url.Fields())))
    {
      hide Quiet, Inv, Adds, RequestEncoder.Prepared, IsRequest, StartsRequest;
      var _ := GetRemainTime();
      var canSend := Select();
      if !canSend.IsSuccess() {
        HandleErrorResponse(canSend.resultCode, canSend.errorCode);
        return false;
      }
      var sendData;
      ghost var order;
      sendData, order := RequestEncoder.HtmlEncode(info, url);
      ok := SendAll(sendData);
      assert "" + sendData == sendData;
      WirePart(Terms(), url.Fields(), info.headers, order, world.wire);
    }

    method SendAll(sendData: string) returns (ok: bool)
      requires Inv() && Wired() && world.waited.IsSuccess() && !world.closed
      modifies this`isValid, this`made, this`after, this`log, this`hasSocket
      modifies world`script, world`wire, world`calls, world`moved
      ensures Inv() && |world.script| <= |old(world.script)|
      ensures Steady(old(isValid), old(world.script), isValid, world.script)
      ensures old(world.wire) <= world.wire <= old(world.wire) + sendData
      ensures ok ==> world.wire == old(world.wire) + sendData && Past() == old(Past()) && hasSocket
      ensures !ok ==> SendFails(Line()) && Adds(old(Past()), Past(), SendCalls(Line()))
    {
      hide Quiet, Inv, Adds;
      var dataView := sendData;
      ghost var sent := "";
      while true
        invariant Inv() && hasSocket && |world.script| <= |old(world.script)|
        invariant sendData == sent + dataView && world.wire == old(world.wire) + sent
        invariant Past() == old(Past()) && Steady(old(isValid), old(world.script), isValid, world.script)
        decreases |dataView|
      {
        var sendResult, sendSize := SocketSend(dataView);
        ghost var taken := if sendSize > 0 then sendSize else 0;
        SentMore(old(world.wire), sent, dataView, taken);
        if !sendResult.IsSuccess() {
          HandleErrorResponse(sendResult.resultCode, sendResult.errorCode);
          return false;
        } else if sendSize < |dataView| {
          sent := sent + dataView[..sendSize];
          dataView := dataView[sendSize..];
        } else {
          break;
        }
        if dataView == "" {
          break;
        }
      }
      ok := true;
    }

    // ---------- The run ----------

    /** `receive`: reads until the response is complete, fails, or is redirected. The calls are those that
        the reads of this connection determine, then those for its end or for the redirect. */
    method Receive() returns (ghost received: seq<string>, ghost legs: seq<Attempt>, ghost calls: seq<Event>)
      requires Inv() && !crashed && Wired() && world.open && world.parts == [] && !world.closed
      modifies this, world, info`headers
      ensures Inv() && |world.script| <= |old(world.script)|
      ensures Steady(old(isValid), old(world.script), isValid, world.script)
      ensures Adds(old(Past()), Past(), calls)
      ensures Answered(Terms(), Feed(received, info.isAllowRedirect), old(info.headers), old(redirects), redirects,
                       legs, calls, Line())
      ensures world.Attempts()
              == old(world.past) + [Attempt(old(world.begun), old(world.socket), old(world.wire), received)] + legs
      ensures NonEmptyParts(world.parts) && world.parts == if legs == [] then received else LastParts(legs)
      ensures crashed <==> Feed(world.parts, info.isAllowRedirect).outcome.Crash?
      ensures late <= old(late) + 1 && (!old(isValid) ==> legs == [] && late == old(late))
      decreases |world.script|, 2
    {
      hide Quiet, Inv, Feed, Adds, Follows, Concludes, LastParts;
      ghost var before := Past();
      FeedNothing(info.isAllowRedirect);
      var location;
      location, calls := ReadResponse();
      received := world.parts;
      if location.Some? {
        ghost var middle := Past();
        legs, calls := FollowRedirect(location.value);
        AddsAfterNothing(before, middle, Past(), calls);
      } else {
        legs := [];
      }
    }

    /** The loop of `receive`; it ends with the target of a redirect when there is one to follow. */
    method ReadResponse() returns (location: Option<string>, ghost calls: seq<Event>)
      requires Inv() && Wired() && !crashed && world.parts == [] && !world.closed
      modifies this`isValid, this`made, this`after, this`log, this`hasSocket, this`crashed
      modifies world`script, world`parts, world`calls, world`waited, world`moved, world`closed
      ensures Inv() && |world.script| <= |old(world.script)|
      ensures Steady(old(isValid), old(world.script), isValid, world.script)
      ensures NonEmptyParts(world.parts) && (!old(isValid) ==> world.parts == [])
      ensures var f := Feed(world.parts, info.isAllowRedirect);
              && location == (if f.outcome.Redirect? then Some(f.outcome.location) else None)
              && (crashed <==> f.outcome.Crash?)
              && Concludes(f, calls, Line()) && Adds(old(Past()), Past(), calls)
              && (f.outcome.Redirect? ==> calls == [])
      ensures location.Some? ==> |world.script| < |old(world.script)|
    {
      hide Quiet, Inv, Feed, OnRead, START, Adds, EndCalls, ErrorEnd, Breaks, BreakCalls, Await, Concludes;
      location := None;
      var state, outcome := START, Continue;
      FeedNothing(info.isAllowRedirect);
      AddsNothing(Past());
      NoErrorEnd();
      while outcome.Continue?
        invariant Inv() && !crashed && |world.script| <= |old(world.script)|
        invariant NonEmptyParts(world.parts) && !world.closed
        invariant Steady(old(isValid), old(world.script), isValid, world.script)
        invariant world.parts != [] ==> |world.script| < |old(world.script)| && old(isValid)
        invariant outcome == Feed(world.parts, info.isAllowRedirect).outcome
        invariant outcome.Continue? ==> hasSocket && state == Feed(world.parts, info.isAllowRedirect).state
        invariant Adds(old(Past()), Past(), Feed(world.parts, info.isAllowRedirect).events + ErrorEnd(outcome))
        decreases |world.script|
      {
        ghost var middle, before := Past(), world.parts;
        ghost var f := Feed(before, info.isAllowRedirect);
        AddsBegins(old(Past()), middle, f.events + ErrorEnd(outcome));
        var data, more := ReadOnce();
        assert before + [] == before;
        if !more {
          calls := ReadingBroken(old(Past()), middle, Past(), f, Line());
          return;
        }
        if data == "" {
          continue;
        }
        ghost var readable := Past();
        FeedStep(before, data, info.isAllowRedirect);
        state, outcome := OnBytes(state, data);
        ghost var events := OnRead(f.state, data, info.isAllowRedirect).events;
        ReadMore(old(Past()), readable, Past(), f.events, events, ErrorEnd(outcome));
      }
      ghost var f := Feed(world.parts, info.isAllowRedirect);
      ghost var middle := Past();
      FeedShape(world.parts, info.isAllowRedirect);
      location := Conclude(outcome);
      Concluded(old(Past()), middle, Past(), f, Line());
      calls := f.events + EndCalls(outcome, Line());
      RedirectedSilently(f, Line());
    }

    /** After the read that brought the response to its end. */
    method Conclude(outcome: Outcome) returns (location: Option<string>)
      requires Inv() && !crashed && !outcome.Continue?
      modifies this`isValid, this`made, this`after, this`log, this`hasSocket, this`crashed, world`script
      ensures Inv() && |world.script| <= |old(world.script)|
      ensures Steady(old(isValid), old(world.script), isValid, world.script)
      ensures Adds(old(Past()), Past(), if outcome.Close? then [OnDisconnected] else [])
      ensures crashed <==> outcome.Crash?
      ensures location == if outcome.Redirect? then Some(outcome.location) else None
    {
      hide Quiet, Inv, Adds;
      AddsNothing(Past());
      location := None;
      match outcome
      case Redirect(target) =>
        location := Some(target);
      case Close =>
        Disconnect();
      case Crash =>
        crashed := true;
      case _ =>
    }

    /** Waiting for and making one read: some bytes, none when the read is to be repeated, or no more.
        What ends the reading is what waiting comes to or, when there was data, what the transport said. */
    method ReadOnce() returns (data: string, more: bool)
      requires Inv() && Wired() && !world.closed
      modifies this`isValid, this`made, this`after, this`log, this`hasSocket
      modifies world`script, world`parts, world`calls, world`waited, world`moved, world`closed
      ensures Inv() && |world.script| <= |old(world.script)|
      ensures Steady(old(isValid), old(world.script), isValid, world.script)
      ensures world.parts == old(world.parts) + if data == "" then [] else [data]
      ensures more ==>
                && old(isValid) && Past() == old(Past()) && hasSocket && |world.script| < |old(world.script)|
                && !world.closed
                && Await(old(world.script), info.timeout, startStamp).Ready?
                && (if data == "" then world.moved.resultCode == Retry else world.moved.IsSuccess())
      ensures !more ==> data == ""
      ensures !more ==>
                var w := Await(old(world.script), info.timeout, startStamp);
                if !old(isValid) || w.Stopped? then !isValid && Adds(old(Past()), Past(), [])
                else
                  && Breaks(Line()) && Adds(old(Past()), Past(), BreakCalls(Line()))
                  && (if w.Lost? then world.waited == w.result && !w.result.IsSuccess() && !world.closed
                      else
                        && world.waited.IsSuccess() && !world.moved.IsSuccess()
                        && (world.closed <==> world.moved.resultCode == Disconnected))
    {
      hide Quiet, Inv, Await, Adds;
      data := "";
      var receivable := IsReceivable();
      if !receivable {
        return "", false;
      }
      var recvResult;
      recvResult, data := SocketReceive();
      if !recvResult.IsSuccess() {
        if recvResult.resultCode == Retry {
          return "", true;
        }
        if recvResult.resultCode in {ResultCode.Completed, Disconnected} {
          Disconnect();
        } else {
          HandleErrorResponse(recvResult.resultCode, recvResult.errorCode);
        }
        return "", false;
      }
      more := true;
    }

    /** The limit and the eight-bit counter of redirects: at the limit the error is reported and the
        connection given up, and the redirect is counted all the same. */
    method CountRedirect()
      requires Inv()
      modifies this`isValid, this`made, this`after, this`log, this`hasSocket, this`redirectCount, this`redirects
      modifies world`script
      ensures Inv() && |world.script| <= |old(world.script)|
      ensures Steady(old(isValid), old(world.script), isValid, world.script)
      ensures redirects == old(redirects) + 1
      ensures Adds(old(Past()), Past(), LimitError(old(redirects)))
      ensures LimitError(old(redirects))
              == if old(redirects) % 256 >= 7 then [OnError(RedirectReachMaxCount, 0), OnDisconnected] else []
    {
      hide Quiet, Observed, Adds, LimitError;
      AddsNothing(Past());
      LimitExact(redirects);
      if redirectCount >= REDIRECT_MAX_COUNT {
        HandleErrorResponse(RedirectReachMaxCount, 0);
      }
      redirectCount := (redirectCount + 1) % 256;
      redirects := redirects + 1;
    }

    /** Parses a redirect target; the old URL is gone even when the new one is of no use. */
    method SetUrl(location: string) returns (ok: bool)
      modifies `url
      ensures url != null && (ok <==> Followable(location))
      ensures ok ==> url.valid && url.Fields() == Urls.Parse(location).value
    {
      hide Quiet, Urls.Parse;
      url := new Urls.Url(location);
      ok := url.valid && url.IsHttpScheme();
    }

    /** `redirect`: at the limit the error is reported, and the redirect is followed all the same. A
        target that is a http or https URL always leads to another attempt, and no other does. */
    method FollowRedirect(location: string) returns (ghost legs: seq<Attempt>, ghost calls: seq<Event>)
      requires Inv() && !crashed
      modifies this, world, info`headers
      ensures Inv() && |world.script| <= |old(world.script)|
      ensures Steady(old(isValid), old(world.script), isValid, world.script)
      ensures Adds(old(Past()), Past(), calls)
      ensures Follows(Terms(), location, old(info.headers), old(redirects), redirects, legs, calls, Line())
      ensures world.Attempts() == old(world.Attempts()) + legs
      ensures legs != [] <==> Followable(location)
      ensures location == "" ==> calls == [OnError(RedirectError, 0), OnDisconnected]
      ensures legs == [] ==> HasEnd(calls, [OnError(RedirectError, 0), OnDisconnected])
      ensures legs == [] ==> !crashed && world.parts == old(world.parts)
      ensures legs != [] ==>
                && NonEmptyParts(world.parts) && LastParts(legs) == world.parts
                && (crashed <==> Feed(world.parts, info.isAllowRedirect).outcome.Crash?)
      ensures late <= old(late) + 1
      decreases |world.script|, 1
    {
      hide Quiet, Inv, Adds, Urls.Parse, LimitError, Followable, Chain, Feed, LastParts, WholeArrives, ChunksArrive,
           BreakArrives, PayloadOf, HasEnd;
      FollowableParses(location);
      RejectedLast([]);
      ghost var before := Past();
      if location == "" {
        HandleErrorResponse(RedirectError, 0);
        assert [] + REJECTED == REJECTED;
        return [], REJECTED;
      }
      ghost var limit := LimitError(redirects);
      CountRedirect();
      ghost var counted := Past();
      ghost var rest := REJECTED;
      legs := [];
      var followable := SetUrl(location);
      if !followable {
        HandleErrorResponse(RedirectError, 0);
        RejectedLast(limit);
      } else {
        legs, rest := SendRequest();
      }
      calls := limit + rest;
      AddsMore(before, counted, Past(), limit, rest);
    }

    /** `sendRequest`: one connection attempt, and everything that follows from it. */
    method SendRequest() returns (ghost legs: seq<Attempt>, ghost calls: seq<Event>)
      requires Inv() && !crashed && url != null
      modifies this, world, info`headers
      ensures Inv() && |world.script| <= |old(world.script)|
      ensures Steady(old(isValid), old(world.script), isValid, world.script)
      ensures Adds(old(Past()), Past(), calls)
      ensures Chain(Terms(), old(url.Fields()), old(info.headers), old(redirects), redirects, legs, calls, Line())
      ensures world.Attempts() == old(world.Attempts()) + legs && legs != [] && LastParts(legs) == world.parts
      ensures NonEmptyParts(world.parts)
      ensures crashed <==> Feed(world.parts, info.isAllowRedirect).outcome.Crash?
      ensures WholeArrives(calls, world.parts, info.isAllowRedirect)
      ensures ChunksArrive(calls, world.parts, info.isAllowRedirect)
      ensures BreakArrives(calls, world.parts, info.isAllowRedirect, Line())
      ensures PayloadOf(calls) == PayloadOf(Feed(world.parts, info.isAllowRedirect).events)
      ensures late <= old(late) + 1 && (!old(isValid) ==> |legs| == 1 && late == old(late) + 1)
      decreases |world.script|, 0
    {
      hide Quiet, Inv, Adds, Feed, ConnectError, Connected, WholeArrives, ChunksArrive, SocketFor,
           BreakArrives, PayloadOf;
      ghost var before, began := Past(), world.script;
      FeedNothing(info.isAllowRedirect);
      var connected := Connect();
      ghost var connection, https := Past(), old(url.Fields()).scheme == "https";
      if connected {
        ghost var rest;
        legs, rest := Exchange();
        calls := [OnConnected] + rest;
        AddsMore(before, connection, Past(), [OnConnected], rest);
      } else {
        calls := ErrorCalls(ConnectError(began, https, info.timeout, startStamp).value);
        legs := [Attempt(began, world.socket, "", [])];
      }
      ChainArrives(Terms(), old(url.Fields()), old(info.headers), old(redirects), redirects, legs, calls, Line());
    }

    /** The second half of `sendRequest`: sending the request, and receiving the response when all of it
        was sent. */
    method Exchange() returns (ghost legs: seq<Attempt>, ghost calls: seq<Event>)
      requires Inv() && !crashed && url != null && Wired()
      requires world.open && world.wire == "" && world.parts == [] && !world.closed
      modifies this, world, info`headers
      ensures Inv() && |world.script| <= |old(world.script)|
      ensures Steady(old(isValid), old(world.script), isValid, world.script)
      ensures Adds(old(Past()), Past(), calls)
      ensures world.Attempts() == old(world.past) + legs
      ensures legs != [] && legs[0].script == old(world.begun) && legs[0].socket == old(world.socket)
      ensures Connected(Terms(), old(url.Fields()), old(info.headers), old(redirects), redirects, legs, calls, Line())
      ensures NonEmptyParts(world.parts) && LastParts(legs) == world.parts
      ensures crashed <==> Feed(world.parts, info.isAllowRedirect).outcome.Crash?
      ensures late <= old(late) + 1 && (!old(isValid) ==> |legs| == 1 && late == old(late))
      decreases |world.script|, 3
    {
      hide Quiet, Inv, Adds, Feed, Answered, Connected, RequestEncoder.Prepared, StartsRequest, IsRequest, LastParts,
           SendCalls, SendFails;
      ghost var began, socket := world.begun, world.socket;
      ghost var parts, headers, redirected := url.Fields(), info.headers, redirects;
      FeedNothing(info.isAllowRedirect);
      var sent := Send();
      ghost var leg, more := Attempt(began, socket, world.wire, []), [];
      if sent {
        ghost var received;
        received, more, calls := Receive();
        leg := leg.(parts := received);
        AnsweredConnects(Terms(), parts, headers, redirected, redirects, leg, more, calls, Line());
      } else {
        calls := SendCalls(Line());
        UnsentConnects(Terms(), parts, headers, redirects, leg, Line());
      }
      legs := [leg] + more;
      assert [leg] + [] == [leg];
      LastLeg(leg, more);
    }

    /** One more attempt; a late one when the request has been cancelled by now. */
    method BeginAttempt()
      requires Inv()
      modifies this`isValid, this`late
      modifies world`script, world`begun, world`socket, world`wire, world`parts, world`past, world`open, world`closed
      ensures Inv() && world.script == From(old(world.script), 1)
      ensures world.Began(old(world.Attempts()), old(world.script)) && !world.closed
      ensures late == old(late) + if isValid then 0 else 1
      ensures Steady(old(isValid), old(world.script), isValid, world.script)
      ensures Adds(old(Past()), Past(), [])
    {
      world.NewAttempt();
      Yield();
      if !isValid {
        late := late + 1;
      }
    }

    method MakeSocket()
      requires url != null
      modifies this`hasSocket, this`tls, this`ssl, world`script, world`socket
      ensures world.script == From(old(world.script), if url.IsHttps() then 1 else 0)
      ensures Wired()
      ensures world.socket == if url.IsHttps() then TlsSocket(Nth(old(world.script), 0).ok) else PlainSocket
    {
      tls := url.IsHttps();
      if tls {
        var session := world.Ask();
        ssl := session.ok;
      }
      hasSocket := true;
      world.Open(if tls then TlsSocket(ssl) else PlainSocket);
    }

    /** The first half of `sendRequest`: resolving, making a socket, connecting. */
    method Connect() returns (ok: bool)
      requires Inv() && url != null
      modifies this`isValid, this`made, this`after, this`log, this`hasSocket, this`tls, this`ssl, this`late
      modifies world`script, world`begun, world`socket, world`wire, world`parts, world`past, world`open, world`waited
      modifies world`closed
      ensures Inv() && |world.script| <= |old(world.script)|
      ensures Steady(old(isValid), old(world.script), isValid, world.script)
      ensures world.open && world.past == old(world.Attempts()) && world.begun == old(world.script)
      ensures world.wire == "" && world.parts == [] && !world.closed
      ensures world.socket == SocketFor(old(world.script), url.IsHttps())
      ensures late == old(late) || (late == old(late) + 1 && !isValid)
      ensures !old(isValid) ==> late == old(late) + 1 && !isValid
      ensures var error := ConnectError(old(world.script), url.IsHttps(), info.timeout, startStamp);
              && (ok <==> error.None?)
              && Adds(old(Past()), Past(), if ok then [OnConnected] else ErrorCalls(error.value))
      ensures ok ==> Wired() && |world.script| < |old(world.script)|
    {
      hide Quiet, Inv, From, Nth, Adds, ConnectError, SocketFor;
      ghost var before := Past();
      BeginAttempt();
      ghost var begun := Past();
      var error := Establish(old(world.script));
      ReportConnection(error);
      AddsAfterNothing(before, begun, Past(), if error.None? then [OnConnected] else ErrorCalls(error.value));
      ok := error.None?;
    }

    method ReportConnection(error: Option<SocketResult>)
      requires Inv()
      modifies this`isValid, this`made, this`after, this`log, this`hasSocket, world`script
      ensures Inv() && |world.script| <= |old(world.script)|
      ensures Steady(old(isValid), old(world.script), isValid, world.script)
      ensures Adds(old(Past()), Past(), if error.None? then [OnConnected] else ErrorCalls(error.value))
      ensures error.None? ==> hasSocket == old(hasSocket)
      ensures !old(isValid) ==> !isValid
    {
      hide Quiet, Inv;
      if error.Some? {
        HandleErrorResponse(error.value.resultCode, error.value.errorCode);
      } else {
        CallAlways(OnConnected);
      }
    }

    /** Resolving, making a socket, connecting: what goes wrong, if anything does. */
    method Establish(ghost began: seq<Answer>) returns (error: Option<SocketResult>)
      requires url != null && world.script == From(began, 1) && world.socket == NoSocket
      modifies this`hasSocket, this`tls, this`ssl, world`script, world`socket, world`waited
      ensures |world.script| <= |old(world.script)| && (Quiet(began) ==> Quiet(world.script))
      ensures error == ConnectError(began, url.IsHttps(), info.timeout, startStamp)
      ensures world.socket == SocketFor(began, url.IsHttps())
      ensures world.socket == if !Nth(began, 1).ok then NoSocket
                              else if url.scheme == "https" then TlsSocket(Nth(began, 2).ok) else PlainSocket
      ensures var clock := Nth(began, if url.IsHttps() then 3 else 2).clock;
              !(Nth(began, 1).ok && Remain(info.timeout, clock, startStamp) > 0) ==> world.waited == old(world.waited)
      ensures error.None? ==> Wired() && |world.script| < |began|
    {
      hide Quiet, From, Nth;
      Answers(began, if url.IsHttps() then 3 else 2);
      var resolved := world.Ask();
      if !resolved.ok {
        return Some(SocketResult(GetAddressFailed, resolved.errorCode));
      }
      MakeSocket();
      var timeout := GetRemainTime();
      if timeout <= 0 {
        var last := world.Ask();
        return Some(SocketResult(Timeout, last.errorCode));
      }
      var result := Select();
      if !result.IsSuccess() {
        return Some(result);
      }
      error := None;
    }

    /** `process`: a whole run, from a new request on, in any environment and with a cancel at any moment.
        The calls due are those of a chain of attempts that begins with the request's URL, and the calls
        made are those, up to a cancel and as far as they are not guarded behind it. They form the language
        if and only if at most seven redirects were followed; every further redirect adds one Disconnected. */
    method Process() returns (ghost legs: seq<Attempt>, ghost calls: seq<Event>)
      requires Fresh()
      modifies this, world, info`headers
      ensures Inv() && log == Observed(handlers, Past().Points()) && CancelSafe(Past().Points())
      ensures isValid <==> Cancelled !in Past().Points()
      ensures Adds(NOTHING, Past(), calls)
      ensures world.Attempts() == old(world.Attempts()) + legs
      ensures if Startable()
              then
                && Chain(Terms(), Urls.Parse(info.url).value, old(info.headers), 0, redirects, legs, calls, Line())
                && LastParts(legs) == world.parts
                && |legs| + (if Rejects(world.parts, info.isAllowRedirect) then 1 else 0) == redirects + 1
                && WholeArrives(calls, world.parts, info.isAllowRedirect)
                && ChunksArrive(calls, world.parts, info.isAllowRedirect)
                && BreakArrives(calls, world.parts, info.isAllowRedirect, Line())
                && PayloadOf(calls) == PayloadOf(Feed(world.parts, info.isAllowRedirect).events)
              else legs == [] && redirects == 0
      ensures info.methodType.UnknownMethod? ==> calls == [OnError(MethodError, 0), OnDisconnected]
      ensures !info.methodType.UnknownMethod? && Urls.Parse(info.url).None? ==>
                calls == [OnError(UrlInvalid, 0), OnDisconnected]
      ensures !info.methodType.UnknownMethod? && Urls.Parse(info.url).Some?
              && Urls.Parse(info.url).value.scheme !in {"http", "https"} ==>
                calls == [OnError(SchemeNotSupported, 0), OnDisconnected]
      ensures crashed <==> Startable() && Dies(world.parts, info.isAllowRedirect)
      ensures !crashed ==> (InLanguage(calls) <==> redirects <= 7)
      ensures !crashed ==> CountDisconnected(calls) == 1 + Hits(redirects)
      ensures redirects <= 7 ==> Begins(made)
      ensures late <= 1
      ensures PayloadOf(log) == if handlers.data then PayloadOf(Past().Points()) else ""
      ensures isValid ==> log == Observed(handlers, calls)
      ensures isValid && handlers.data ==> PayloadOf(log) == PayloadOf(calls)
      ensures Quiet(old(world.script)) ==> isValid
      ensures Quiet(old(world.script)) && handlers == ALL_HANDLERS ==> log == calls
    {
      hide Quiet, Inv, Urls.Parse, InLanguage, CountDisconnected, CancelSafe, Observed, Chain, Hits, Adds, WholeArrives,
           ChunksArrive, Feed, Begins, Rejects, Dies, Unguarded, BreakArrives, PayloadOf;
      legs := [];
      if info.methodType.UnknownMethod? {
        HandleErrorResponse(MethodError, 0);
        calls := [OnError(MethodError, 0), OnDisconnected];
      } else {
        url := new Urls.Url(info.url);
        if !url.valid {
          HandleErrorResponse(UrlInvalid, 0);
          calls := [OnError(UrlInvalid, 0), OnDisconnected];
        } else if !url.IsHttpScheme() {
          HandleErrorResponse(SchemeNotSupported, 0);
          calls := [OnError(SchemeNotSupported, 0), OnDisconnected];
        } else {
          legs, calls := SendRequest();
        }
      }
      AddsBegins(NOTHING, Past(), calls);
      if Startable() {
        StartedRun(Terms(), Urls.Parse(info.url).value, old(info.headers), redirects, legs, calls, Line(), made);
        CrashExact(world.parts, info.isAllowRedirect);
      } else {
        RefusedRun(calls, made);
      }
      WhatIsSeen(calls);
    }

    /** The request has a method, and a URL that can be requested. */
    ghost predicate Startable() {
      !info.methodType.UnknownMethod? && Followable(info.url)
    }

    lemma WhatIsSeen(calls: seq<Event>)
      requires Inv() && Adds(NOTHING, Past(), calls)
      ensures log == Observed(handlers, Past().Points()) && CancelSafe(Past().Points())
      ensures isValid <==> Cancelled !in Past().Points()
      ensures isValid ==> log == Observed(handlers, calls) && (handlers == ALL_HANDLERS ==> log == calls)
      ensures PayloadOf(log) == if handlers.data then PayloadOf(Past().Points()) else ""
      ensures isValid && handlers.data ==> PayloadOf(log) == PayloadOf(calls)
    {
      hide PayloadOf;
      PayloadSeen(handlers, Past().Points());
      ProperIsSafe(Past());
      assert [] + calls == calls;
      if isValid {
        ObservedAll(calls);
      }
    }
  }

  /** The state matters only while there is more to read. */
  ghost predicate Reacts(expected: Reaction, r: Receiver, outcome: Outcome) {
    outcome == expected.outcome && (outcome.Continue? ==> r == expected.state)
  }

  lemma SentMore(wire: string, sent: string, view: string, n: nat)
    requires n <= |view|
    ensures wire + sent + view[..n] == wire + (sent + view[..n])
    ensures sent + view == sent + view[..n] + view[n..]
    ensures n == |view| ==> view[..n] == view
    ensures wire <= wire + (sent + view[..n]) <= wire + (sent + view)
  {
    assert view == view[..n] + view[n..];
    assert wire + (sent + view) == wire + (sent + view[..n]) + view[n..];
  }

  lemma AfterNothing(s: Scan)
    ensures After([], s) == s
    ensures DataEvents(Deliveries([])) == []
  {
    assert [] + s.segments == s.segments;
  }

  lemma AfterEnd(done: seq<Segment>, s: Scan)
    ensures s.segments == [] ==> After(done, s) == s.(segments := done)
  {
  }

  lemma MoreDone(done: seq<Segment>, step: Segment, view: string, s: Scan)
    ensures After(done, After([step] + Break(view), s)) == After(done + ([step] + Break(view)), s)
    ensures DataEvents(Deliveries(done + ([step] + Break(view))))
            == DataEvents(Deliveries(done)) + if step.Payload? then [OnData(step.bytes)] else []
    ensures Stripped(view) == if CRLF <= view then view[2..] else view
  {
    hide Deliveries, Break, DataEvents;
    StepDelivers(step, view);
    DeliveriesAppend(done, [step] + Break(view));
    DataEventsAppend(Deliveries(done), Deliveries([step] + Break(view)));
  }

  lemma StepDelivers(step: Segment, view: string)
    ensures DataEvents(Deliveries([step] + Break(view))) == if step.Payload? then [OnData(step.bytes)] else []
  {
    var b := Break(view);
    assert Deliveries(b) == [] by {
      assert b == [] || b[1..] == [];
    }
    assert ([step] + b)[1..] == b;
    var payload := if step.Payload? then [step.bytes] else [];
    assert Deliveries([step] + b) == payload + [];
    assert payload + [] == payload;
  }

  lemma {:induction false} DeliveriesAppend(a: seq<Segment>, b: seq<Segment>)
    ensures Deliveries(a + b) == Deliveries(a) + Deliveries(b)
  {
    if a == [] {
      assert a + b == b;
    } else {
      assert (a + b)[1..] == a[1..] + b;
      DeliveriesAppend(a[1..], b);
    }
  }
}
