/** What a whole run of a request amounts to: waiting for data, connecting, the calls of one attempt,
    and the attempts that redirects string together, as relations between what the environment
    answered and the calls that were made. */
module Runs {
  import opened Text
  import Base64
  import Numbers
  import StringUtil
  import opened ResponseHeaders
  import Chunked
  import Cuts
  import opened Trace
  import opened Receivers
  import opened Transport
  import opened RequestEncoder
  import opened Urls

  const REDIRECT_MAX_COUNT: nat := 7

  // ---------- The clock ----------

  /** TimeStamp::diff: microseconds apart in 64-bit unsigned arithmetic, in milliseconds. */
  function Diff(now: nat, start: nat): nat {
    (now - start) % 0x1_0000_0000_0000_0000 / 1000
  }

  function Remain(timeout: int, now: nat, start: nat): nat {
    var t := timeout - Diff(now, start);
    if t > 0 then t else 0
  }

  /** Time is left exactly while the clock has not run back and the timeout has not passed: setting
      the clock back behind the start at all uses the timeout up. */
  lemma RemainExact(timeout: int, now: nat, start: nat)
    requires now < 0x1_0000_0000_0000_0000 && start < 0x8000_0000_0000_0000
    requires timeout <= 0x8000_0000_0000_0000 / 1000
    ensures Remain(timeout, now, start) > 0 <==> start <= now && (now - start) / 1000 < timeout
  {
    if now < start {
      assert (now - start) % 0x1_0000_0000_0000_0000 == now - start + 0x1_0000_0000_0000_0000;
    } else {
      assert (now - start) % 0x1_0000_0000_0000_0000 == now - start;
    }
  }

  // ---------- Waiting for data ----------

  /** What waiting for data comes to: a cancel, data, or an error. Each round asks for a cancel, the
      clock, select and the clock again; an interrupted select is repeated while there is time. */
  datatype Wait = Ready | Stopped | Lost(result: SocketResult)

  function Await(s: seq<Answer>, timeout: int, start: nat): Wait
    decreases |s|
  {
    var a := Nth(s, 2);
    if Nth(s, 0).cancel then Stopped
    else if a.code.Success? then Ready
    else if Again(s, 0, timeout, start) then Await(From(s, 4), timeout, start)
    else Lost(SocketResult(a.code, a.errorCode))
  }

  /** The round that begins with answer `i` waits in vain, and there is time for another. */
  predicate Again(s: seq<Answer>, i: nat, timeout: int, start: nat) {
    Nth(s, i + 2).code.Retry? && Remain(timeout, Nth(s, i + 3).clock, start) > 0
  }

  /** Another round is made exactly when the select was interrupted and the timeout has not passed. */
  lemma AgainExact(s: seq<Answer>, i: nat, timeout: int, start: nat)
    requires Nth(s, i + 3).clock < 0x1_0000_0000_0000_0000 && start < 0x8000_0000_0000_0000
    requires timeout <= 0x8000_0000_0000_0000 / 1000
    ensures var now := Nth(s, i + 3).clock;
            Again(s, i, timeout, start) <==>
              Nth(s, i + 2).code == Retry && start <= now && (now - start) / 1000 < timeout
  {
    hide Nth, Remain;
    RemainExact(timeout, Nth(s, i + 3).clock, start);
  }

  /** The first `k` rounds wait in vain, with time left and no cancel. */
  ghost predicate InVain(s: seq<Answer>, k: nat, timeout: int, start: nat) {
    forall i: nat | i < k :: !Nth(s, 4 * i).cancel && Again(s, 4 * i, timeout, start)
  }

  /** The k-th round is the last one, with this outcome. */
  ghost predicate EndsWith(s: seq<Answer>, k: nat, w: Wait, timeout: int, start: nat) {
    && InVain(s, k, timeout, start)
    && match w
       case Stopped => Nth(s, 4 * k).cancel
       case Ready => !Nth(s, 4 * k).cancel && Nth(s, 4 * k + 2).code.Success?
       case Lost(r) =>
         && !Nth(s, 4 * k).cancel && r == SocketResult(Nth(s, 4 * k + 2).code, Nth(s, 4 * k + 2).errorCode)
         && !r.IsSuccess() && !Again(s, 4 * k, timeout, start)
  }

  lemma RoundShift(s: seq<Answer>, k: nat, w: Wait, timeout: int, start: nat)
    ensures EndsWith(s, k + 1, w, timeout, start) <==>
              !Nth(s, 0).cancel && Again(s, 0, timeout, start) && EndsWith(From(s, 4), k, w, timeout, start)
  {
    hide Nth, From, Remain;
    forall i: nat
      ensures Nth(From(s, 4), i) == Nth(s, 4 + i)
    {
      FromFrom(s, 4, i);
    }
    forall i: nat
      ensures Nth(From(s, 4), 4 * i).cancel == Nth(s, 4 * (i + 1)).cancel
      ensures Again(From(s, 4), 4 * i, timeout, start) == Again(s, 4 * (i + 1), timeout, start)
    {
    }
    if EndsWith(From(s, 4), k, w, timeout, start) && !Nth(s, 0).cancel && Again(s, 0, timeout, start) {
      forall i: nat | i < k + 1
        ensures !Nth(s, 4 * i).cancel && Again(s, 4 * i, timeout, start)
      {
        if i > 0 {
          var j := i - 1;
          assert j < k && 4 * i == 4 * (j + 1);
          assert !Nth(From(s, 4), 4 * j).cancel && Again(From(s, 4), 4 * j, timeout, start);
        }
      }
    }
    if EndsWith(s, k + 1, w, timeout, start) {
      assert 0 < k + 1;
      assert !Nth(s, 4 * 0).cancel && Again(s, 4 * 0, timeout, start);
      forall i: nat | i < k
        ensures !Nth(From(s, 4), 4 * i).cancel && Again(From(s, 4), 4 * i, timeout, start)
      {
        assert i + 1 < k + 1;
      }
    }
  }

  lemma FirstRound(s: seq<Answer>, w: Wait, timeout: int, start: nat)
    ensures if !Nth(s, 0).cancel && Again(s, 0, timeout, start)
            then !EndsWith(s, 0, w, timeout, start) && Await(s, timeout, start) == Await(From(s, 4), timeout, start)
            else EndsWith(s, 0, w, timeout, start) <==> Await(s, timeout, start) == w
  {
    hide Nth, From, Remain;
    AwaitStep(s, timeout, start);
  }

  /** Waiting comes to `w` if and only if some round does, with only rounds in vain before it. */
  lemma {:induction false} AwaitExact(s: seq<Answer>, w: Wait, timeout: int, start: nat)
    ensures Await(s, timeout, start) == w <==> exists k: nat :: EndsWith(s, k, w, timeout, start)
    decreases |s|
  {
    hide Remain, Await, EndsWith;
    FirstRound(s, w, timeout, start);
    forall k: nat
      ensures EndsWith(s, k + 1, w, timeout, start) <==>
                !Nth(s, 0).cancel && Again(s, 0, timeout, start) && EndsWith(From(s, 4), k, w, timeout, start)
    {
      RoundShift(s, k, w, timeout, start);
    }
    if !Nth(s, 0).cancel && Again(s, 0, timeout, start) {
      AwaitExact(From(s, 4), w, timeout, start);
      if k: nat :| EndsWith(From(s, 4), k, w, timeout, start) {
        assert EndsWith(s, k + 1, w, timeout, start);
      }
      forall k: nat | EndsWith(s, k, w, timeout, start)
        ensures Await(s, timeout, start) == w
      {
        RoundShift(s, k - 1, w, timeout, start);
      }
    } else {
      forall k: nat | EndsWith(s, k, w, timeout, start)
        ensures k == 0
      {
        if k > 0 {
          RoundShift(s, k - 1, w, timeout, start);
        }
      }
    }
  }

  lemma AwaitStep(s: seq<Answer>, timeout: int, start: nat)
    ensures var a := Nth(s, 2);
            Await(s, timeout, start) ==
            if Nth(s, 0).cancel then Stopped
            else if a.code.Success? then Ready
            else if Remain(timeout, Nth(s, 3).clock, start) > 0 && a.code.Retry? then Await(From(s, 4), timeout, start)
            else Lost(SocketResult(a.code, a.errorCode))
  {
  }

  lemma Answers(s: seq<Answer>, k: nat)
    requires k >= 2
    ensures forall i: nat :: Nth(From(s, i), 0) == Nth(s, i) && From(From(s, i), 1) == From(s, i + 1)
    ensures From(From(s, 2), k - 2) == From(s, k)
    ensures Nth(s, 1).ok ==> |From(s, k)| < |s|
  {
    forall i: nat
      ensures Nth(From(s, i), 0) == Nth(s, i) && From(From(s, i), 1) == From(s, i + 1)
    {
      FromFrom(s, i, 0);
      FromFrom(s, i, 1);
    }
    FromFrom(s, 2, k - 2);
  }

  // ---------- How an attempt ends ----------

  function ErrorCalls(r: SocketResult): seq<Event> {
    [OnError(r.resultCode, r.errorCode), OnDisconnected]
  }

  /** What the last select said, and the last transfer; whether the peer has closed; and whether the
      request was cancelled. */
  datatype Link = Link(waited: SocketResult, moved: SocketResult, closed: bool, cancelled: bool)

  predicate SendFails(l: Link) {
    !l.closed && (!l.waited.IsSuccess() || !l.moved.IsSuccess())
  }

  function SendCalls(l: Link): seq<Event> {
    ErrorCalls(if !l.waited.IsSuccess() then l.waited else l.moved)
  }

  /** Reading ends on account of the connection. */
  predicate Breaks(l: Link) {
    l.closed || !l.waited.IsSuccess() || (!l.moved.IsSuccess() && l.moved.resultCode != Retry)
  }

  /** A close by the peer is no error. */
  function BreakCalls(l: Link): seq<Event> {
    if l.closed then [OnDisconnected]
    else if !l.waited.IsSuccess() then ErrorCalls(l.waited)
    else ErrorCalls(l.moved)
  }

  /** A chunk error is reported where it is found. */
  function ErrorEnd(outcome: Outcome): seq<Event> {
    if outcome.ChunkError? then [OnError(ChunkSizeError, 0), OnDisconnected] else []
  }

  /** The calls that follow those of the reads. */
  function EndCalls(outcome: Outcome, l: Link): seq<Event> {
    match outcome
    case Continue => BreakCalls(l)
    case Close => [OnDisconnected]
    case _ => ErrorEnd(outcome)
  }

  /** All the calls of a response: those of the reads and those that follow, a cancel having stopped the
      reading or not. */
  predicate Concludes(f: Reaction, calls: seq<Event>, l: Link) {
    || (calls == f.events + EndCalls(f.outcome, l) && (f.outcome.Continue? ==> Breaks(l)))
    || (f.outcome.Continue? && l.cancelled && calls == f.events + [OnDisconnected])
  }

  /** What goes wrong while connecting, read off the environment's answers: the first is the moment
      before the attempt, then come the resolver, the TLS session for https, the clock, and connect. */
  function ConnectError(s: seq<Answer>, https: bool, timeout: int, start: nat): Option<SocketResult> {
    var k := if https then 3 else 2;
    if !Nth(s, 1).ok then Some(SocketResult(GetAddressFailed, Nth(s, 1).errorCode))
    else if Remain(timeout, Nth(s, k).clock, start) <= 0 then Some(SocketResult(Timeout, Nth(s, k + 1).errorCode))
    else if !Nth(s, k + 1).code.Success? then Some(SocketResult(Nth(s, k + 1).code, Nth(s, k + 1).errorCode))
    else None
  }

  /** Connecting succeeds exactly when the host is resolved, time is left and connect says so; and what is
      reported otherwise. */
  lemma ConnectErrorExact(s: seq<Answer>, https: bool, timeout: int, start: nat)
    requires var now := Nth(s, if https then 3 else 2).clock;
             now < 0x1_0000_0000_0000_0000 && start < 0x8000_0000_0000_0000
    requires timeout <= 0x8000_0000_0000_0000 / 1000
    ensures var now, connect := Nth(s, if https then 3 else 2).clock, Nth(s, if https then 4 else 3);
            var inTime := start <= now && (now - start) / 1000 < timeout;
            var error := ConnectError(s, https, timeout, start);
            && (error.None? <==> Nth(s, 1).ok && inTime && connect.code == Success)
            && (!Nth(s, 1).ok ==> error == Some(SocketResult(GetAddressFailed, Nth(s, 1).errorCode)))
            && (Nth(s, 1).ok && !inTime ==> error == Some(SocketResult(Timeout, connect.errorCode)))
            && (Nth(s, 1).ok && inTime && connect.code != Success ==>
                error == Some(SocketResult(connect.code, connect.errorCode)))
  {
    hide Nth, Remain;
    RemainExact(timeout, Nth(s, if https then 3 else 2).clock, start);
  }

  /** The socket of the attempt, once the host is resolved: TLS exactly for https. */
  function SocketFor(s: seq<Answer>, https: bool): Socket {
    if !Nth(s, 1).ok then NoSocket else if https then TlsSocket(Nth(s, 2).ok) else PlainSocket
  }

  // ---------- Attempts strung together by redirects ----------

  /** What stays the same over a run. */
  datatype Setup = Setup(methodType: HttpMethodType, body: string, allowRedirect: bool, timeout: int, start: nat)

  /** A URL that a redirect may lead to. */
  predicate Followable(location: string) {
    Parse(location).Some? && Parse(location).value.scheme in {"http", "https"}
  }

  lemma FollowableParses(location: string)
    ensures Followable(location) ==> Parse(location).Some? && location != ""
  {
    hide Parse;
    EmptyIsRefused();
  }

  lemma EmptyIsRefused()
    ensures Parse("").None?
  {
  }

  /** `text` is the printed request, the headers iterated in some order. */
  ghost predicate IsRequest(text: string, c: Setup, url: Parts, headers: Headers) {
    exists order :: Enumerates(order, headers) && text == MessageText(c, url, headers, order)
  }

  ghost predicate StartsRequest(text: string, c: Setup, url: Parts, headers: Headers) {
    exists order :: Enumerates(order, headers) && text <= MessageText(c, url, headers, order)
  }

  ghost function MessageText(c: Setup, url: Parts, headers: Headers, order: seq<string>): string
    requires Enumerates(order, headers)
  {
    Printed(RequestLine(c.methodType, url), HeaderLines(headers, order), c.body)
  }

  /** Every redirect to a http or https URL is followed, and no other. */
  lemma FollowableExact(location: string)
    ensures Followable(location) <==>
              exists rest: string :: location == "http" + "://" + rest || location == "https" + "://" + rest
  {
    hide Parse;
    SchemeExact(location, "http");
    SchemeExact(location, "https");
  }

  function LimitError(redirects: nat): seq<Event> {
    if redirects % 256 >= REDIRECT_MAX_COUNT then [OnError(RedirectReachMaxCount, 0), OnDisconnected] else []
  }

  /** Seven redirects are followed without a report, counted in eight bits. */
  lemma LimitExact(redirects: nat)
    ensures LimitError(redirects)
            == if redirects % 256 >= 7 then [OnError(RedirectReachMaxCount, 0), OnDisconnected] else []
    ensures (redirects % 256 + 1) % 256 == (redirects + 1) % 256
  {
  }

  const REJECTED: seq<Event> := [OnError(RedirectError, 0), OnDisconnected]

  lemma RejectedLast(limit: seq<Event>)
    ensures HasEnd(limit + REJECTED, [OnError(RedirectError, 0), OnDisconnected])
  {
  }

  /** The legs of a run, one for each connection attempt, and the calls they were to make. An attempt on
      `url` uses the socket for its scheme, and fails to connect, or fails to send the request, or has sent
      all of it and is answered. `redirects` have been followed before and `total` in the end; `l` is what
      the connection said last. */
  ghost predicate Chain(c: Setup, url: Parts, headers: Headers, redirects: nat, total: nat, legs: seq<Attempt>,
                        calls: seq<Event>, l: Link)
    decreases |legs|, 0
  {
    && legs != []
    && legs[0].socket == SocketFor(legs[0].script, url.scheme == "https")
    && match ConnectError(legs[0].script, url.scheme == "https", c.timeout, c.start)
       case Some(error) =>
         && legs == [Attempt(legs[0].script, legs[0].socket, "", [])] && !l.closed
         && total == redirects && calls == ErrorCalls(error)
       case None =>
         calls != [] && calls[0] == OnConnected && Connected(c, url, headers, redirects, total, legs, calls[1..], l)
  }

  ghost predicate Connected(c: Setup, url: Parts, headers: Headers, redirects: nat, total: nat, legs: seq<Attempt>,
                            calls: seq<Event>, l: Link)
    requires legs != []
    decreases |legs| - 1, 3
  {
    || Unsent(c, url, headers, redirects, total, legs, calls, l)
    || (IsRequest(legs[0].wire, c, url, Prepared(headers, c.body, url))
        && Answered(c, Feed(legs[0].parts, c.allowRedirect), Prepared(headers, c.body, url), redirects, total,
                    legs[1..], calls, l))
  }

  ghost predicate Unsent(c: Setup, url: Parts, headers: Headers, redirects: nat, total: nat, legs: seq<Attempt>,
                         calls: seq<Event>, l: Link) {
    && |legs| == 1 && total == redirects && SendFails(l) && calls == SendCalls(l)
    && legs[0].parts == []
    && (legs[0].wire == "" || StartsRequest(legs[0].wire, c, url, Prepared(headers, c.body, url)))
  }

  /** The calls that the reads determine, then those for the end of the connection; or a redirect. */
  ghost predicate Answered(c: Setup, f: Reaction, headers: Headers, redirects: nat, total: nat, legs: seq<Attempt>,
                           calls: seq<Event>, l: Link)
    decreases |legs|, 2
  {
    if f.outcome.Redirect? then Follows(c, f.outcome.location, headers, redirects, total, legs, calls, l)
    else
      legs == [] && total == redirects && Concludes(f, calls, l)
  }

  /** An empty target is reported; so is the limit, and the redirect is followed all the same; so is a
      target that is not a http or https URL; and any other is the next attempt. */
  ghost predicate Follows(c: Setup, location: string, headers: Headers, redirects: nat, total: nat,
                          legs: seq<Attempt>, calls: seq<Event>, l: Link)
    decreases |legs|, 1
  {
    if location == "" then legs == [] && total == redirects && calls == REJECTED
    else
      && LimitError(redirects) <= calls
      && var rest := calls[|LimitError(redirects)|..];
         if !Followable(location) then legs == [] && total == redirects + 1 && rest == REJECTED
         else Chain(c, Parse(location).value, headers, redirects + 1, total, legs, rest, l)
  }

  // ---------- The language of a run ----------

  /** How often the redirect limit was met when following `n` redirects; the counter has eight bits. */
  function Hits(n: nat): nat {
    if n == 0 then 0 else Hits(n - 1) + if (n - 1) % 256 >= REDIRECT_MAX_COUNT then 1 else 0
  }

  lemma HitsStep(n: nat)
    ensures Hits(n + 1) == Hits(n) + if n % 256 >= REDIRECT_MAX_COUNT then 1 else 0
  {
  }

  lemma NoHits()
    ensures Hits(0) == 0
  {
  }

  lemma Counted(m: nat)
    ensures if m % 256 < 255 then (m + 1) / 256 == m / 256 && (m + 1) % 256 == m % 256 + 1
            else (m + 1) / 256 == m / 256 + 1 && (m + 1) % 256 == 0
  {
  }

  lemma {:induction false} HitsExact(n: nat)
    ensures Hits(n) == 249 * (n / 256) + if n % 256 > 7 then n % 256 - 7 else 0
    ensures Hits(n) == 0 <==> n <= 7
  {
    hide Hits;
    if n > 0 {
      HitsExact(n - 1);
      HitsStep(n - 1);
      Counted(n - 1);
    } else {
      NoHits();
    }
  }

  /** The phase that a finished stretch ends in. */
  function EndPhase(p: Phase, limitMet: bool): Phase {
    if limitMet || p.Closed? || p.Bad? then Bad else Closed
  }

  /** Behind `before` the calls end everything that is live, with `n` Disconnected too many. */
  ghost predicate Finishes(before: seq<Event>, calls: seq<Event>, n: int) {
    && n >= 0
    && CountDisconnected(before + calls) == CountDisconnected(before) + 1 + n
    && PhaseOf(before + calls) == EndPhase(PhaseOf(before), n > 0)
  }

  /** Before the next attempt: nothing has been called yet in it, whatever came before. */
  ghost predicate Between(before: seq<Event>) {
    PhaseOf(before) in {Open, Closed, Bad}
  }

  lemma FinishesAtEnd(before: seq<Event>, tail: seq<Event>)
    requires AtEnd(tail) && !PhaseOf(before).Broken?
    ensures Finishes(before, tail, 0)
  {
    AppendEnd(before, tail);
  }

  /** What a response leaves out when the process dies of it. */
  function Missing(outcome: Outcome): seq<Event> {
    if outcome.Crash? then [OnDisconnected] else []
  }

  lemma ResponseFinishes(before: seq<Event>, parts: seq<string>, allowRedirect: bool, calls: seq<Event>, l: Link)
    requires Between(before)
    requires Concludes(Feed(parts, allowRedirect), calls, l) && !Feed(parts, allowRedirect).outcome.Redirect?
    ensures Finishes(before, calls + Missing(Feed(parts, allowRedirect).outcome), 0)
  {
    hide Feed, PhaseOf, CountDisconnected, BreakCalls, Finishes;
    var f := Feed(parts, allowRedirect);
    FeedShape(parts, allowRedirect);
    var end := if calls == f.events + [OnDisconnected] then [OnDisconnected]
               else EndCalls(f.outcome, l) + Missing(f.outcome);
    EndsWell(f.outcome, l);
    assert calls + [] == calls && f.events + [] + [OnDisconnected] == f.events + [OnDisconnected];
    assert calls + Missing(f.outcome) == f.events + end by {
      assert f.outcome.Crash? ==> calls == f.events;
    }
    EventsFinish(before, f.events, end);
  }

  lemma EndsWell(outcome: Outcome, l: Link)
    ensures outcome.Continue? ==> AtEnd(BreakCalls(l))
    ensures EndCalls(outcome, l) + [] == EndCalls(outcome, l)
  {
  }

  lemma EventsFinish(before: seq<Event>, events: seq<Event>, end: seq<Event>)
    requires Between(before) && (events == [] || HeaderAndData(events)) && AtEnd(end)
    ensures Finishes(before, events + end, 0)
  {
    hide PhaseOf, CountDisconnected;
    AppendResponse(before, events);
    AppendEnd(before + events, end);
    assert before + events + end == before + (events + end);
  }

  lemma LimitFinishes(before: seq<Event>, redirects: nat)
    requires Between(before)
    ensures Between(before + LimitError(redirects))
    ensures var n := Hits(redirects + 1) - Hits(redirects);
            var after := before + LimitError(redirects);
            && 0 <= n <= 1
            && CountDisconnected(after) == CountDisconnected(before) + n
            && PhaseOf(after) == if n > 0 then EndPhase(PhaseOf(before), false) else PhaseOf(before)
  {
    hide PhaseOf, CountDisconnected, Hits;
    HitsStep(redirects);
    if LimitError(redirects) == [] {
      assert before + [] == before;
    } else {
      AppendEnd(before, LimitError(redirects));
    }
  }

  lemma FinishesLater(before: seq<Event>, first: seq<Event>, rest: seq<Event>, n: nat, m: nat)
    requires n <= 1 && CountDisconnected(before + first) == CountDisconnected(before) + n
    requires PhaseOf(before + first) == if n > 0 then EndPhase(PhaseOf(before), false) else PhaseOf(before)
    requires Finishes(before + first, rest, m)
    ensures Finishes(before, first + rest, n + m)
  {
    hide PhaseOf, CountDisconnected;
    assert before + first + rest == before + (first + rest);
  }

  function LastParts(legs: seq<Attempt>): seq<string> {
    if legs == [] then [] else legs[|legs| - 1].parts
  }

  /** What the last leg leaves out when the process dies of it. */
  function MissingAt(c: Setup, legs: seq<Attempt>): seq<Event> {
    Missing(Feed(LastParts(legs), c.allowRedirect).outcome)
  }

  /** A run calls Disconnected once and once more for every time the limit was met, and its calls end
      everything that was live; when the process dies, the last Disconnected is all that is missing. */
  lemma {:induction false} ChainFinishes(c: Setup, url: Parts, headers: Headers, redirects: nat, total: nat,
                                         legs: seq<Attempt>, calls: seq<Event>, l: Link, before: seq<Event>)
    requires Chain(c, url, headers, redirects, total, legs, calls, l)
    requires Between(before)
    ensures total >= redirects && Hits(total) >= Hits(redirects)
    ensures Finishes(before, calls + MissingAt(c, legs), Hits(total) - Hits(redirects))
    decreases |legs|, 0
  {
    hide Finishes, PhaseOf, CountDisconnected, ConnectError, Connected, Hits, Between, Feed;
    BetweenIs(before);
    if ConnectError(legs[0].script, url.scheme == "https", c.timeout, c.start).Some? {
      NothingMissing(c, legs, calls);
      FinishesAtEnd(before, calls);
    } else {
      var rest := calls[1..];
      ConnectedIsNothing(before);
      ExchangeFinishes(c, url, headers, redirects, total, legs, rest, l, before + [OnConnected]);
      ConnectedFinishes(before, rest + MissingAt(c, legs), Hits(total) - Hits(redirects));
      assert calls + MissingAt(c, legs) == [OnConnected] + (rest + MissingAt(c, legs));
    }
  }

  lemma NothingMissing(c: Setup, legs: seq<Attempt>, calls: seq<Event>)
    ensures LastParts(legs) == [] ==> calls + MissingAt(c, legs) == calls
    ensures Feed(LastParts(legs), c.allowRedirect).outcome.Redirect? ==> calls + MissingAt(c, legs) == calls
  {
    hide Feed;
    FeedNothing(c.allowRedirect);
  }

  lemma {:induction false} ExchangeFinishes(c: Setup, url: Parts, headers: Headers, redirects: nat, total: nat,
                                            legs: seq<Attempt>, calls: seq<Event>, l: Link, before: seq<Event>)
    requires legs != [] && Connected(c, url, headers, redirects, total, legs, calls, l)
    requires Between(before)
    ensures total >= redirects && Hits(total) >= Hits(redirects)
    ensures Finishes(before, calls + MissingAt(c, legs), Hits(total) - Hits(redirects))
    decreases |legs| - 1, 3
  {
    hide Finishes, PhaseOf, CountDisconnected, Feed, IsRequest, Prepared, Hits, StartsRequest, Between, Answered,
         MissingAt;
    BetweenIs(before);
    if Unsent(c, url, headers, redirects, total, legs, calls, l) {
      NothingMissing(c, legs, calls);
      FinishesAtEnd(before, calls);
    } else {
      AnsweredFinishes(c, legs[0].parts, Prepared(headers, c.body, url), redirects, total, legs, calls, l, before);
    }
  }

  lemma BetweenIs(before: seq<Event>)
    ensures Between(before) ==> !PhaseOf(before).Broken?
  {
    hide PhaseOf;
  }

  lemma ConnectedIsNothing(before: seq<Event>)
    requires Between(before)
    ensures Between(before + [OnConnected])
    ensures CountDisconnected(before + [OnConnected]) == CountDisconnected(before)
    ensures PhaseOf(before + [OnConnected]) == if PhaseOf(before).Open? then Open else Bad
  {
    hide PhaseOf, CountDisconnected;
    PhaseStep(before, OnConnected);
    CountStep(before, OnConnected);
  }

  lemma ConnectedFinishes(before: seq<Event>, rest: seq<Event>, n: int)
    requires Between(before) && Finishes(before + [OnConnected], rest, n)
    ensures Finishes(before, [OnConnected] + rest, n)
  {
    hide PhaseOf, CountDisconnected;
    ConnectedIsNothing(before);
    assert before + [OnConnected] + rest == before + ([OnConnected] + rest);
  }

  lemma {:induction false} AnsweredFinishes(c: Setup, parts: seq<string>, headers: Headers, redirects: nat, total: nat,
                                            legs: seq<Attempt>, calls: seq<Event>, l: Link, before: seq<Event>)
    requires legs != [] && legs[0].parts == parts
    requires Answered(c, Feed(parts, c.allowRedirect), headers, redirects, total, legs[1..], calls, l)
    requires Between(before)
    ensures total >= redirects && Hits(total) >= Hits(redirects)
    ensures Finishes(before, calls + MissingAt(c, legs), Hits(total) - Hits(redirects))
    decreases |legs| - 1, 2
  {
    hide Finishes, PhaseOf, CountDisconnected, Feed, Hits, Between, Follows, Concludes;
    var f := Feed(parts, c.allowRedirect);
    if f.outcome.Redirect? {
      FollowsFinishes(c, f.outcome.location, headers, redirects, total, legs[1..], calls, l, before);
      assert legs[1..] == [] ==> LastParts(legs) == parts;
      NothingMissing(c, legs[1..], calls);
      NothingMissing(c, legs, calls);
    } else {
      ResponseFinishes(before, parts, c.allowRedirect, calls, l);
    }
  }

  lemma {:induction false} FollowsFinishes(c: Setup, location: string, headers: Headers, redirects: nat, total: nat,
                                           legs: seq<Attempt>, calls: seq<Event>, l: Link, before: seq<Event>)
    requires Follows(c, location, headers, redirects, total, legs, calls, l)
    requires Between(before)
    ensures total >= redirects && Hits(total) >= Hits(redirects)
    ensures Finishes(before, calls + MissingAt(c, legs), Hits(total) - Hits(redirects))
    decreases |legs|, 1
  {
    hide Finishes, PhaseOf, CountDisconnected, Hits, Between, LimitError, Chain, Followable, Parse, MissingAt;
    BetweenIs(before);
    if location == "" {
      NothingMissing(c, legs, calls);
      FinishesAtEnd(before, calls);
    } else {
      var limit := LimitError(redirects);
      var rest := calls[|limit|..];
      LimitFinishes(before, redirects);
      BetweenIs(before + limit);
      FollowableParses(location);
      if !Followable(location) {
        NothingMissing(c, legs, rest);
        FinishesAtEnd(before + limit, rest);
      } else {
        ChainFinishes(c, Parse(location).value, headers, redirects + 1, total, legs, rest, l, before + limit);
      }
      var n := Hits(redirects + 1) - Hits(redirects);
      FinishesLater(before, limit, rest + MissingAt(c, legs), n, Hits(total) - Hits(redirects + 1));
      assert calls + MissingAt(c, legs) == limit + (rest + MissingAt(c, legs));
    }
  }

  /** The calls of a run form the language if and only if at most seven redirects were followed; those of a
      run that the process dies of lack the last Disconnected. */
  lemma ChainLanguage(c: Setup, url: Parts, headers: Headers, total: nat, legs: seq<Attempt>, calls: seq<Event>,
                      l: Link)
    requires Chain(c, url, headers, 0, total, legs, calls, l)
    ensures InLanguage(calls + MissingAt(c, legs)) <==> total <= 7
    ensures CountDisconnected(calls + MissingAt(c, legs)) == 1 + Hits(total)
  {
    hide Chain, InLanguage, MissingAt;
    var all := calls + MissingAt(c, legs);
    assert [] + all == all;
    ChainFinishes(c, url, headers, 0, total, legs, calls, l, []);
    HitsExact(total);
    LanguageExact(all);
  }

  /** The last leg ends with a redirect to a target that leads nowhere. */
  ghost predicate Rejects(parts: seq<string>, allowRedirect: bool) {
    var outcome := Feed(parts, allowRedirect).outcome;
    outcome.Redirect? && outcome.location != ""
  }

  /** One attempt for every redirect followed plus the first, unless the last target was rejected. */
  lemma {:induction false} ChainCounts(c: Setup, url: Parts, headers: Headers, redirects: nat, total: nat,
                                       legs: seq<Attempt>, calls: seq<Event>, l: Link)
    requires Chain(c, url, headers, redirects, total, legs, calls, l)
    ensures redirects + |legs| + (if Rejects(LastParts(legs), c.allowRedirect) then 1 else 0) == total + 1
    decreases |legs|, 0
  {
    hide Feed, ConnectError, IsRequest, Prepared, StartsRequest, Concludes, Follows;
    FeedNothing(c.allowRedirect);
    if ConnectError(legs[0].script, url.scheme == "https", c.timeout, c.start).None? {
      var rest := calls[1..];
      if !Unsent(c, url, headers, redirects, total, legs, rest, l) {
        var f := Feed(legs[0].parts, c.allowRedirect);
        assert Answered(c, f, Prepared(headers, c.body, url), redirects, total, legs[1..], rest, l);
        if f.outcome.Redirect? {
          FollowsCounts(c, f.outcome.location, Prepared(headers, c.body, url), redirects, total, legs[1..], rest, l);
        }
      }
    }
  }

  lemma AtLeastOne(c: Setup, url: Parts, headers: Headers, redirects: nat, total: nat, legs: seq<Attempt>,
                   calls: seq<Event>, l: Link)
    requires Chain(c, url, headers, redirects, total, legs, calls, l)
    ensures legs != []
  {
  }

  lemma {:induction false} FollowsCounts(c: Setup, location: string, headers: Headers, redirects: nat, total: nat,
                                         legs: seq<Attempt>, calls: seq<Event>, l: Link)
    requires Follows(c, location, headers, redirects, total, legs, calls, l)
    ensures legs == [] ==> total == redirects + if location == "" then 0 else 1
    ensures legs != [] ==>
              redirects + |legs| + (if Rejects(LastParts(legs), c.allowRedirect) then 1 else 0) == total
    decreases |legs|, 1
  {
    hide Chain, Followable, LimitError, Rejects, Parse;
    FollowableParses(location);
    if Followable(location) {
      AtLeastOne(c, Parse(location).value, headers, redirects + 1, total, legs, calls[|LimitError(redirects)|..], l);
    }
    if legs != [] {
      ChainCounts(c, Parse(location).value, headers, redirects + 1, total, legs, calls[|LimitError(redirects)|..], l);
    }
  }

  // ---------- Calls before a cancel ----------

  /** The beginning of something in the language. */
  ghost predicate Begins(t: seq<Event>) {
    exists rest :: InLanguage(t + rest)
  }

  lemma {:induction false} BadForGood(a: seq<Event>, b: seq<Event>)
    requires a <= b && PhaseOf(a).Bad?
    ensures PhaseOf(b).Bad?
    decreases |b|
  {
    if |a| < |b| {
      BadForGood(a, b[..|b| - 1]);
    } else {
      assert a == b;
    }
  }

  lemma BeginsExact(t: seq<Event>)
    ensures Begins(t) <==> !PhaseOf(t).Bad?
  {
    hide InLanguage, PhaseOf;
    if !PhaseOf(t).Bad? {
      var rest := if PhaseOf(t).Closed? then [] else [OnDisconnected];
      PhaseStep(t, OnDisconnected);
      assert t + [] == t;
      LanguageExact(t + rest);
    }
    forall rest | InLanguage(t + rest)
      ensures !PhaseOf(t).Bad?
    {
      LanguageExact(t + rest);
      if PhaseOf(t).Bad? {
        BadForGood(t, t + rest);
      }
    }
  }

  /** The beginning of a beginning. */
  lemma BeginsShorter(t: seq<Event>, longer: seq<Event>)
    requires t <= longer && InLanguage(longer)
    ensures Begins(t)
  {
    hide InLanguage;
    assert longer == t + longer[|t|..];
  }

  // ---------- What arrives ----------

  predicate HasEnd(calls: seq<Event>, tail: seq<Event>) {
    |tail| <= |calls| && calls[|calls| - |tail|..] == tail
  }

  /** When header and body have been read completely, the calls end with the header, payloads that make
      up the body, and Disconnected. */
  ghost predicate WholeArrives(calls: seq<Event>, parts: seq<string>, allowRedirect: bool) {
    var stream := Concat(parts);
    match ParseHeader(stream, EMPTY)
    case Parsed(h, size) =>
      && HeaderAt(stream, h, size, allowRedirect)
      && !("Transfer-Encoding" in h.headers && h.headers["Transfer-Encoding"] == "chunked")
      && |stream| == size + (if "Content-Length" in h.headers then Numbers.Stoll(h.headers["Content-Length"]).value
                               else 9223372036854775807) ==>
        && size <= |stream|
        && Reassembled(Feed(parts, allowRedirect).events, h, stream[size..])
        && HasEnd(calls, [OnConnected] + Feed(parts, allowRedirect).events + [OnDisconnected])
    case _ => true
  }

  ghost predicate ChunksArriveAs(calls: seq<Event>, parts: seq<string>, size: nat, allowRedirect: bool,
                                 chunks: seq<Chunked.Chunk>, last: string) {
    var f := Feed(parts, allowRedirect);
    var finished := && |Concat(parts)| >= size + |Chunked.Encode(chunks, last, "")|
                    && Cuts.CutsAllowed(chunks, last, parts, size);
    && (f.outcome == Close <==> finished)
    && (finished ==> HasEnd(calls, [OnConnected] + f.events + [OnDisconnected]))
    && (finished && PayloadOf(f.events) == Chunked.DataOf(chunks)
        <==> finished && Cuts.DataSurvive(chunks, parts, size))
    && (f.outcome == Crash <==> Cuts.CutThrows(chunks, parts, size))
    && (f.outcome == ChunkError <==> Cuts.CutErrs(chunks, last, parts, size))
    && (f.outcome == ChunkError ==>
        HasEnd(calls, [OnConnected] + f.events + [OnError(ChunkSizeError, 0), OnDisconnected]))
  }

  /** When a header and any beginning of a chunked body have been read, the calls end with the header, the
      decoded payloads and Disconnected if and only if the last-chunk line has arrived and all cuts are
      allowed; and the payloads are the chunks' data if and only if, besides, every chunk entered skewed
      consists of line breaks only. Where the first cut that is not allowed falls decides whether the process
      dies or a chunk error is reported. */
  ghost predicate ChunksArrive(calls: seq<Event>, parts: seq<string>, allowRedirect: bool) {
    var stream := Concat(parts);
    match ParseHeader(stream, EMPTY)
    case Parsed(h, size) =>
      forall chunks, last, tail |
        && HeaderAt(stream, h, size, allowRedirect)
        && "Transfer-Encoding" in h.headers && h.headers["Transfer-Encoding"] == "chunked"
        && Chunked.AllFramed(chunks) && Chunked.SizeLineFor(last, 0)
        && size <= |stream| && stream[size..] <= Chunked.Encode(chunks, last, tail) ::
        ChunksArriveAs(calls, parts, size, allowRedirect, chunks, last)
    case _ => true
  }

  ghost predicate NonEmptyParts(parts: seq<string>) {
    forall i | 0 <= i < |parts| :: parts[i] != ""
  }

  /** What the calls come to when the connection breaks off a response: a close by the peer is no error, and
      anything else is reported as select or the transfer put it. */
  ghost predicate BreakArrives(calls: seq<Event>, parts: seq<string>, allowRedirect: bool, l: Link) {
    var f := Feed(parts, allowRedirect);
    f.outcome == Continue ==>
      && (l.closed ==> HasEnd(calls, [OnConnected] + f.events + [OnDisconnected]))
      && (!l.closed && !l.cancelled && parts != [] ==>
          var r := if l.waited.resultCode == Success then l.moved else l.waited;
          HasEnd(calls, [OnConnected] + f.events + [OnError(r.resultCode, r.errorCode), OnDisconnected]))
  }

  /** Calls that bring nothing of a response. */
  ghost predicate Silent(calls: seq<Event>) {
    forall i | 0 <= i < |calls| :: !calls[i].OnParseHeaderDone? && !calls[i].OnData?
  }

  /** The calls of a response come last, directly behind Connected; or there is none. */
  ghost predicate EndsAs(calls: seq<Event>, parts: seq<string>, allowRedirect: bool, l: Link) {
    var f := Feed(parts, allowRedirect);
    || (Silent(calls) && ((f == Reaction(START, [], Continue) && parts == [] && !l.closed)
                          || (f.events == [] && f.outcome.Redirect?)))
    || exists n :: EndsAt(calls, f, l, n)
  }

  ghost predicate EndsAt(calls: seq<Event>, f: Reaction, l: Link, n: int) {
    && 0 < n <= |calls| && Silent(calls[..n]) && calls[n - 1] == OnConnected
    && !f.outcome.Redirect? && Concludes(f, calls[n..], l)
  }

  lemma EndIs(calls: seq<Event>, f: Reaction, l: Link, n: int, tail: seq<Event>)
    requires EndsAt(calls, f, l, n) && calls[n..] == f.events + tail
    ensures HasEnd(calls, [OnConnected] + f.events + tail)
  {
    hide Concludes;
    assert calls == calls[..n - 1] + [calls[n - 1]] + calls[n..];
    assert calls[n - 1..] == [OnConnected] + f.events + tail;
    assert |[OnConnected] + f.events + tail| == |calls| - (n - 1);
  }

  lemma ConcludesAs(f: Reaction, calls: seq<Event>, l: Link) returns (tail: seq<Event>)
    requires Concludes(f, calls, l)
    ensures calls == f.events + tail && Silent(tail)
    ensures f.outcome.Close? ==> tail == [OnDisconnected]
    ensures f.outcome.ChunkError? ==> tail == [OnError(ChunkSizeError, 0), OnDisconnected]
    ensures f.outcome.Continue? && l.closed ==> tail == [OnDisconnected]
    ensures f.outcome.Continue? && !l.closed && !l.cancelled ==>
              var r := if l.waited.resultCode == Success then l.moved else l.waited;
              tail == [OnError(r.resultCode, r.errorCode), OnDisconnected]
  {
    tail := if calls == f.events + EndCalls(f.outcome, l) then EndCalls(f.outcome, l) else [OnDisconnected];
  }

  ghost predicate ClosesWell(calls: seq<Event>, parts: seq<string>, allowRedirect: bool) {
    var f := Feed(parts, allowRedirect);
    && (f.outcome.Close? ==> HasEnd(calls, [OnConnected] + f.events + [OnDisconnected]))
    && (f.outcome.ChunkError? ==>
        HasEnd(calls, [OnConnected] + f.events + [OnError(ChunkSizeError, 0), OnDisconnected]))
  }

  /** Of such calls: how they end, and what they bring. */
  lemma EndsWellSo(calls: seq<Event>, parts: seq<string>, allowRedirect: bool, l: Link)
    requires EndsAs(calls, parts, allowRedirect, l)
    ensures ClosesWell(calls, parts, allowRedirect) && BreakArrives(calls, parts, allowRedirect, l)
    ensures PayloadOf(calls) == PayloadOf(Feed(parts, allowRedirect).events)
  {
    hide Feed, Concludes, HasEnd, PayloadOf, START;
    var f := Feed(parts, allowRedirect);
    NoPayload([]);
    if n :| EndsAt(calls, f, l, n) {
      var tail := ConcludesAs(f, calls[n..], l);
      EndIs(calls, f, l, n, tail);
      PayloadAppend(calls[..n], f.events + tail);
      PayloadAppend(f.events, tail);
      NoPayload(calls[..n]);
      NoPayload(tail);
      assert calls == calls[..n] + (f.events + tail);
    } else {
      NoPayload(calls);
    }
  }

  lemma ChunksClose(calls: seq<Event>, parts: seq<string>, allowRedirect: bool, h: ResponseHeader, size: nat,
                    chunks: seq<Chunked.Chunk>, last: string, tail: string)
    requires NonEmptyParts(parts) && ClosesWell(calls, parts, allowRedirect)
    requires HeaderAt(Concat(parts), h, size, allowRedirect)
    requires "Transfer-Encoding" in h.headers && h.headers["Transfer-Encoding"] == "chunked"
    requires size <= |Concat(parts)| && Concat(parts)[size..] <= Chunked.Encode(chunks, last, tail)
    requires Chunked.AllFramed(chunks) && Chunked.SizeLineFor(last, 0)
    ensures ChunksArriveAs(calls, parts, size, allowRedirect, chunks, last)
  {
    hide Feed, ContentLength, TransferCoding, Numbers.Stoll, ParseHeader, Chunked.Encode, Cuts.CutsAllowed,
         Cuts.CutThrows, Cuts.CutErrs, Cuts.DataSurvive, Chunked.DataOf, PayloadOf, Chunked.AllFramed,
         Chunked.SizeLineFor,
         HasEnd, HeaderAt;
    ChunkedResponse(parts, h, size, allowRedirect, chunks, last, tail);
  }

  lemma ResponseArrives(calls: seq<Event>, parts: seq<string>, allowRedirect: bool)
    requires NonEmptyParts(parts) && ClosesWell(calls, parts, allowRedirect)
    ensures WholeArrives(calls, parts, allowRedirect) && ChunksArrive(calls, parts, allowRedirect)
  {
    hide Feed, ContentLength, TransferCoding, Numbers.Stoll, Reassembled, ParseHeader, Chunked.Encode, ChunksArriveAs,
         HasEnd, Chunked.AllFramed, Chunked.SizeLineFor;
    var stream := Concat(parts);
    match ParseHeader(stream, EMPTY)
    case Parsed(h, size) =>
      if HeaderAt(stream, h, size, allowRedirect) {
        HeaderNotEmpty(stream, h, size);
        FieldsDecide(h.headers);
        if !("Transfer-Encoding" in h.headers && h.headers["Transfer-Encoding"] == "chunked")
           && |stream| == size + ContentLength(h.headers).value {
          WholeResponse(parts, stream, h, size, allowRedirect);
        }
        forall chunks, last, tail | "Transfer-Encoding" in h.headers && h.headers["Transfer-Encoding"] == "chunked"
          && Chunked.AllFramed(chunks) && Chunked.SizeLineFor(last, 0)
          && stream[size..] <= Chunked.Encode(chunks, last, tail)
          ensures ChunksArriveAs(calls, parts, size, allowRedirect, chunks, last)
        {
          ChunksClose(calls, parts, allowRedirect, h, size, chunks, last, tail);
        }
      }
    case _ =>
  }

  lemma LongerEnds(first: seq<Event>, calls: seq<Event>, parts: seq<string>, allowRedirect: bool, l: Link)
    requires Silent(first) && EndsAs(calls, parts, allowRedirect, l)
    ensures EndsAs(first + calls, parts, allowRedirect, l)
  {
    hide Feed, Concludes;
    var f := Feed(parts, allowRedirect);
    if n :| EndsAt(calls, f, l, n) {
      var m := |first| + n;
      assert (first + calls)[m..] == calls[n..] && (first + calls)[..m] == first + calls[..n];
      assert EndsAt(first + calls, f, l, m);
    }
  }

  lemma ConnectedEnds(calls: seq<Event>, parts: seq<string>, allowRedirect: bool, l: Link)
    requires Concludes(Feed(parts, allowRedirect), calls, l) && !Feed(parts, allowRedirect).outcome.Redirect?
    ensures EndsAs([OnConnected] + calls, parts, allowRedirect, l)
  {
    hide Feed, Concludes;
    var all := [OnConnected] + calls;
    assert all[..1] == [OnConnected] && all[1..] == calls;
    assert EndsAt(all, Feed(parts, allowRedirect), l, 1);
  }

  lemma {:induction false} ChainEnds(c: Setup, url: Parts, headers: Headers, redirects: nat, total: nat,
                                     legs: seq<Attempt>, calls: seq<Event>, l: Link)
    requires Chain(c, url, headers, redirects, total, legs, calls, l)
    ensures EndsAs(calls, LastParts(legs), c.allowRedirect, l)
    decreases |legs|, 0
  {
    hide Feed, ConnectError, IsRequest, Prepared, StartsRequest, Follows, Concludes, START;
    FeedNothing(c.allowRedirect);
    if ConnectError(legs[0].script, url.scheme == "https", c.timeout, c.start).None? {
      var rest := calls[1..];
      assert calls == [OnConnected] + rest;
      if !Unsent(c, url, headers, redirects, total, legs, rest, l) {
        var f := Feed(legs[0].parts, c.allowRedirect);
        assert Answered(c, f, Prepared(headers, c.body, url), redirects, total, legs[1..], rest, l);
        if f.outcome.Redirect? {
          FeedShape(legs[0].parts, c.allowRedirect);
          FollowsEnds(c, legs[0].parts, Prepared(headers, c.body, url), redirects, total, legs[1..], rest, l);
          LongerEnds([OnConnected], rest, LastParts(legs), c.allowRedirect, l);
        } else {
          ConnectedEnds(rest, legs[0].parts, c.allowRedirect, l);
        }
      }
    }
  }

  lemma LimitIsSilent(redirects: nat, calls: seq<Event>)
    ensures Silent(LimitError(redirects)) && Silent(REJECTED)
    ensures calls == LimitError(redirects) + REJECTED ==> Silent(calls)
  {
  }

  lemma RejectedEnds(calls: seq<Event>, parts: seq<string>, allowRedirect: bool, l: Link)
    requires Silent(calls) && Feed(parts, allowRedirect).events == []
    requires Feed(parts, allowRedirect).outcome.Redirect?
    ensures EndsAs(calls, parts, allowRedirect, l)
  {
    hide Feed;
  }

  lemma {:induction false} FollowsEnds(c: Setup, parts: seq<string>, headers: Headers, redirects: nat, total: nat,
                                       legs: seq<Attempt>, calls: seq<Event>, l: Link)
    requires var outcome := Feed(parts, c.allowRedirect).outcome;
             outcome.Redirect? && Follows(c, outcome.location, headers, redirects, total, legs, calls, l)
    requires Feed(parts, c.allowRedirect).events == []
    ensures EndsAs(calls, if legs == [] then parts else LastParts(legs), c.allowRedirect, l)
    decreases |legs|, 1
  {
    hide Chain, Followable, Parse, Feed, EndsAs, Silent, LimitError;
    var location := Feed(parts, c.allowRedirect).outcome.location;
    LimitIsSilent(redirects, calls);
    if location == "" {
      RejectedEnds(calls, parts, c.allowRedirect, l);
    } else {
      var limit := LimitError(redirects);
      var rest := calls[|limit|..];
      FollowableParses(location);
      if Followable(location) {
        ChainEnds(c, Parse(location).value, headers, redirects + 1, total, legs, rest, l);
        AtLeastOne(c, Parse(location).value, headers, redirects + 1, total, legs, rest, l);
        LongerEnds(limit, rest, LastParts(legs), c.allowRedirect, l);
      } else {
        RejectedEnds(calls, parts, c.allowRedirect, l);
      }
      assert calls == limit + rest;
    }
  }

  /** Whatever the chain, what the last connection received arrives, and what broke it off. */
  lemma ChainArrives(c: Setup, url: Parts, headers: Headers, redirects: nat, total: nat, legs: seq<Attempt>,
                     calls: seq<Event>, l: Link)
    requires Chain(c, url, headers, redirects, total, legs, calls, l) && NonEmptyParts(LastParts(legs))
    ensures WholeArrives(calls, LastParts(legs), c.allowRedirect)
    ensures ChunksArrive(calls, LastParts(legs), c.allowRedirect)
    ensures BreakArrives(calls, LastParts(legs), c.allowRedirect, l)
    ensures PayloadOf(calls) == PayloadOf(Feed(LastParts(legs), c.allowRedirect).events)
  {
    hide Chain, WholeArrives, ChunksArrive, ClosesWell, EndsAs, BreakArrives, PayloadOf, Feed;
    ChainEnds(c, url, headers, redirects, total, legs, calls, l);
    EndsWellSo(calls, LastParts(legs), c.allowRedirect, l);
    ResponseArrives(calls, LastParts(legs), c.allowRedirect);
  }

  /** In every run: when the last connection received a printed response, cut anywhere, the calls end with its
      header map behind Connected, its body, and Disconnected, and bring no other data. */
  lemma PrintedArrives(c: Setup, url: Parts, headers: Headers, redirects: nat, total: nat, legs: seq<Attempt>,
                       calls: seq<Event>, l: Link, status: string, m: Headers, order: seq<string>, body: string)
    requires Chain(c, url, headers, redirects, total, legs, calls, l) && NonEmptyParts(LastParts(legs))
    requires Readable(status, m, order, c.allowRedirect)
    requires "Content-Length" in m && m["Content-Length"] == Numbers.Numeral(|body|, 10) && |body| <= Numbers.INT64_MAX
    requires !("Transfer-Encoding" in m && m["Transfer-Encoding"] == "chunked")
    requires Concat(LastParts(legs)) == StringUtil.Join([status] + HeaderLines(m, order), "\r\n") + "\r\n\r\n" + body
    ensures var base := ParseStatus(status, EMPTY).value;
            var events := Feed(LastParts(legs), c.allowRedirect).events;
            && Reassembled(events, base.(headers := base.headers + m), body) && base.headers.Keys <= {"Version"}
            && HasEnd(calls, [OnConnected] + events + [OnDisconnected]) && PayloadOf(calls) == body
  {
    hide Chain, EndsAs, BreakArrives, PayloadOf, Feed, ParseStatus, HasEnd, Readable, Numbers.Numeral, HeaderLines;
    ResponseRoundTrip(status, m, order, body, LastParts(legs), c.allowRedirect);
    ChainEnds(c, url, headers, redirects, total, legs, calls, l);
    EndsWellSo(calls, LastParts(legs), c.allowRedirect, l);
  }

  /** The same for a chunked body: its data arrive, and Disconnected follows, under exactly the conditions on
      the cuts. */
  lemma PrintedChunksArrive(c: Setup, url: Parts, headers: Headers, redirects: nat, total: nat, legs: seq<Attempt>,
                            calls: seq<Event>, l: Link, status: string, m: Headers, order: seq<string>,
                            chunks: seq<Chunked.Chunk>, last: string, tail: string)
    requires Chain(c, url, headers, redirects, total, legs, calls, l) && NonEmptyParts(LastParts(legs))
    requires Readable(status, m, order, c.allowRedirect)
    requires "Transfer-Encoding" in m && m["Transfer-Encoding"] == "chunked" && !UnreadableLength(m)
    requires Chunked.AllFramed(chunks) && Chunked.SizeLineFor(last, 0)
    requires Concat(LastParts(legs)) == StringUtil.Join([status] + HeaderLines(m, order), "\r\n") + "\r\n\r\n"
                                        + Chunked.Encode(chunks, last, tail)
    ensures var base := ParseStatus(status, EMPTY).value;
            var size := |StringUtil.Join([status] + HeaderLines(m, order), "\r\n")| + 4;
            var events := Feed(LastParts(legs), c.allowRedirect).events;
            && |events| > 0 && events[0] == OnParseHeaderDone(base.(headers := base.headers + m))
            && base.headers.Keys <= {"Version"}
            && (Cuts.CutsAllowed(chunks, last, LastParts(legs), size) ==>
                && HasEnd(calls, [OnConnected] + events + [OnDisconnected])
                && (PayloadOf(calls) == Chunked.DataOf(chunks) <==> Cuts.DataSurvive(chunks, LastParts(legs), size)))
  {
    hide Chain, EndsAs, BreakArrives, PayloadOf, Feed, ParseStatus, HasEnd, Readable, UnreadableLength, HeaderLines,
         Chunked.AllFramed, Chunked.SizeLineFor, Chunked.Encode, Chunked.DataOf, Cuts.CutsAllowed, Cuts.DataSurvive;
    ChunkedRoundTrip(status, m, order, chunks, last, tail, LastParts(legs), c.allowRedirect);
    ChainEnds(c, url, headers, redirects, total, legs, calls, l);
    EndsWellSo(calls, LastParts(legs), c.allowRedirect, l);
  }

  lemma FeedNothing(allowRedirect: bool)
    ensures Feed([], allowRedirect) == Reaction(START, [], Continue)
  {
  }

  // ---------- What the legs send ----------

  /** The URL of the attempt behind a leg that was redirected. */
  function NextUrl(c: Setup, url: Parts, leg: Attempt): Parts {
    var outcome := Feed(leg.parts, c.allowRedirect).outcome;
    if outcome.Redirect? && Parse(outcome.location).Some? then Parse(outcome.location).value else url
  }

  /** The URLs of the legs: the request's own, and then the targets of the redirects. */
  function UrlsOf(c: Setup, url: Parts, legs: seq<Attempt>): (urls: seq<Parts>)
    ensures |urls| == |legs|
    decreases |legs|
  {
    if legs == [] then [] else [url] + UrlsOf(c, NextUrl(c, url, legs[0]), legs[1..])
  }

  /** The header map after requests to these URLs: every request adds to it. */
  function HeadersAfter(headers: Headers, body: string, urls: seq<Parts>): Headers {
    if urls == [] then headers
    else
      var n := |urls| - 1;
      Prepared(HeadersAfter(headers, body, urls[..n]), body, urls[n])
  }

  lemma {:induction false} HeadersFront(headers: Headers, body: string, url: Parts, urls: seq<Parts>)
    ensures HeadersAfter(headers, body, [url] + urls) == HeadersAfter(Prepared(headers, body, url), body, urls)
    decreases |urls|
  {
    hide Prepared;
    if urls == [] {
      assert [url] + urls == [url] && [url][..0] == [];
      assert HeadersAfter(headers, body, []) == headers;
    } else {
      var n := |urls| - 1;
      assert ([url] + urls)[..n + 1] == [url] + urls[..n];
      HeadersFront(headers, body, url, urls[..n]);
    }
  }

  /** Leg `i` has sent some of the request to its URL, with the headers that have come together by then,
      and all of it when anything came back or it was redirected. */
  ghost predicate Sends(c: Setup, headers: Headers, legs: seq<Attempt>, urls: seq<Parts>, i: nat)
    requires i < |legs| == |urls|
  {
    var h := HeadersAfter(headers, c.body, urls[..i + 1]);
    && (legs[i].wire == "" || StartsRequest(legs[i].wire, c, urls[i], h))
    && (i + 1 < |legs| || legs[i].parts != [] ==> IsRequest(legs[i].wire, c, urls[i], h))
  }

  lemma IsRequestStarts(text: string, c: Setup, url: Parts, headers: Headers)
    ensures IsRequest(text, c, url, headers) ==> StartsRequest(text, c, url, headers)
  {
    if IsRequest(text, c, url, headers) {
      var order :| Enumerates(order, headers) && text == MessageText(c, url, headers, order);
      assert text <= MessageText(c, url, headers, order);
    }
  }

  lemma {:induction false} ChainSends(c: Setup, url: Parts, headers: Headers, redirects: nat, total: nat,
                                      legs: seq<Attempt>, calls: seq<Event>, l: Link, i: nat)
    requires Chain(c, url, headers, redirects, total, legs, calls, l) && i < |legs|
    ensures Sends(c, headers, legs, UrlsOf(c, url, legs), i)
    decreases |legs|, 0
  {
    hide Feed, ConnectError, IsRequest, Prepared, StartsRequest, Follows, Concludes, NextUrl;
    var urls := UrlsOf(c, url, legs);
    assert urls[..i + 1] == [url] + urls[1..][..i];
    HeadersFront(headers, c.body, url, urls[1..][..i]);
    if ConnectError(legs[0].script, url.scheme == "https", c.timeout, c.start).None? {
      var rest := calls[1..];
      var h := Prepared(headers, c.body, url);
      if !Unsent(c, url, headers, redirects, total, legs, rest, l) {
        IsRequestStarts(legs[0].wire, c, url, h);
        var f := Feed(legs[0].parts, c.allowRedirect);
        assert Answered(c, f, h, redirects, total, legs[1..], rest, l);
        if i == 0 {
          assert HeadersAfter(h, c.body, []) == h;
        } else {
          FollowsSends(c, url, h, redirects, total, legs, rest, l, i - 1);
          assert urls[1..] == UrlsOf(c, NextUrl(c, url, legs[0]), legs[1..]);
        }
      } else {
        assert HeadersAfter(h, c.body, []) == h;
      }
    }
  }

  lemma {:induction false} FollowsSends(c: Setup, url: Parts, headers: Headers, redirects: nat, total: nat,
                                        legs: seq<Attempt>, calls: seq<Event>, l: Link, i: nat)
    requires legs != [] && i < |legs[1..]|
    requires Answered(c, Feed(legs[0].parts, c.allowRedirect), headers, redirects, total, legs[1..], calls, l)
    ensures Sends(c, headers, legs[1..], UrlsOf(c, NextUrl(c, url, legs[0]), legs[1..]), i)
    decreases |legs| - 1, 2
  {
    hide Feed, Chain, Followable, LimitError, Sends, UrlsOf, Parse;
    var f := Feed(legs[0].parts, c.allowRedirect);
    FollowableParses(f.outcome.location);
    ChainSends(c, Parse(f.outcome.location).value, headers, redirects + 1, total, legs[1..],
               calls[|LimitError(redirects)|..], l, i);
  }

  /** The first user info in a list of URLs. */
  function FirstUser(urls: seq<Parts>): string {
    if urls == [] then ""
    else
      var n := |urls| - 1;
      if FirstUser(urls[..n]) != "" then FirstUser(urls[..n]) else urls[n].userInfo
  }

  /** What is sent as Authorization: the user's own; or else the credentials of the first URL with user
      info, then and to every later target; or else nothing. */
  function AuthorizationOf(headers: Headers, urls: seq<Parts>): Option<string> {
    if "Authorization" in headers then Some(headers["Authorization"])
    else if FirstUser(urls) != "" then Some(Credentials(FirstUser(urls)))
    else None
  }

  lemma {:induction false} FirstUserExact(urls: seq<Parts>)
    ensures FirstUser(urls) == "" <==> forall i | 0 <= i < |urls| :: urls[i].userInfo == ""
    ensures forall i | 0 <= i < |urls| && urls[i].userInfo != "" && (forall j | 0 <= j < i :: urls[j].userInfo == "") ::
              FirstUser(urls) == urls[i].userInfo
  {
    if urls != [] {
      var n := |urls| - 1;
      FirstUserExact(urls[..n]);
      assert forall i | 0 <= i < n :: urls[i] == urls[..n][i];
    }
  }

  /** The header map of a request to the last of these URLs: the user's own fields as they are, unless it is
      Host or, with a body, Content-Length; its own host; the length of the body; that Authorization; and
      nothing else. */
  ghost predicate Carries(h: Headers, headers: Headers, body: string, urls: seq<Parts>)
    requires urls != []
  {
    var authorization := AuthorizationOf(headers, urls);
    && h.Keys == headers.Keys + {"Host"} + (if body == "" then {} else {"Content-Length"})
                 + (if authorization.None? then {} else {"Authorization"})
    && (forall k | k in headers && k != "Host" && (k != "Content-Length" || body == "") :: h[k] == headers[k])
    && h["Host"] == urls[|urls| - 1].host
    && (body != "" ==> h["Content-Length"] == Numbers.Numeral(|body|, 10))
    && authorization == (if "Authorization" in h then Some(h["Authorization"]) else None)
  }

  /** Every request has these fields. */
  lemma {:induction false} AuthorizationExact(headers: Headers, body: string, urls: seq<Parts>)
    requires urls != []
    ensures Carries(HeadersAfter(headers, body, urls), headers, body, urls)
  {
    hide Credentials, Numbers.Numeral, Prepared, Base64.Groups, Octets;
    var n := |urls| - 1;
    var h := HeadersAfter(headers, body, urls[..n]);
    NamesDiffer();
    PreparedExact(h, body, urls[n]);
    CredentialsAre(urls[n].userInfo);
    if n == 0 {
      assert urls[..0] == [];
      assert h == headers && FirstUser([]) == "";
    } else {
      AuthorizationExact(headers, body, urls[..n]);
    }
  }

  lemma RequestHolds(wire: string, c: Setup, url: Parts, h: Headers, k: string)
    requires IsRequest(wire, c, url, h) && k in h
    ensures Contains(wire, k + ": " + h[k] + CRLF)
  {
    hide Contains;
    var order :| Enumerates(order, h) && wire == MessageText(c, url, h, order);
    PrintedHolds(RequestLine(c.methodType, url), h, order, c.body, k);
    HeaderLineIs(k, h[k]);
  }

  lemma HeaderLineIs(k: string, v: string)
    ensures HeaderLine(k, v) == k + ": " + v
  {
  }

  lemma RequestBegins(wire: string, c: Setup, url: Parts, h: Headers)
    requires IsRequest(wire, c, url, h)
    ensures RequestLine(c.methodType, url) + CRLF <= wire
  {
    hide Printed, RequestLine;
    var order :| Enumerates(order, h) && wire == MessageText(c, url, h, order);
    PrintedBegins(RequestLine(c.methodType, url), HeaderLines(h, order), c.body);
  }

  /** In every run: a request that was redirected or answered begins with the request line of its own URL and
      has on the wire every field of the user's, except a Host and, with a body, a Content-Length of his;
      the Host line of its own URL; the length of its body; and, when there is any by then, the
      Authorization line of the first URL with user info. Those are all the fields it has. */
  lemma CredentialsTravel(c: Setup, url: Parts, headers: Headers, redirects: nat, total: nat, legs: seq<Attempt>,
                          calls: seq<Event>, l: Link, i: nat)
    requires Chain(c, url, headers, redirects, total, legs, calls, l) && i < |legs|
    requires i + 1 < |legs| || legs[i].parts != []
    ensures var urls := UrlsOf(c, url, legs);
            var authorization := AuthorizationOf(headers, urls[..i + 1]);
            var wire := legs[i].wire;
            && RequestLine(c.methodType, urls[i]) + "\r\n" <= wire
            && (forall k | k in headers && k != "Host" && (k != "Content-Length" || c.body == "") ::
                  Contains(wire, k + ": " + headers[k] + "\r\n"))
            && Contains(wire, "Host: " + urls[i].host + "\r\n")
            && (c.body != "" ==> Contains(wire, "Content-Length: " + Numbers.Numeral(|c.body|, 10) + "\r\n"))
            && (authorization.Some? ==> Contains(wire, "Authorization: " + authorization.value + "\r\n"))
            && exists h: Headers :: IsRequest(wire, c, urls[i], h) && Carries(h, headers, c.body, urls[..i + 1])
  {
    hide Chain, UrlsOf, HeadersAfter, StartsRequest, IsRequest, AuthorizationOf, FirstUser, Contains, Numbers.Numeral,
         RequestLine;
    var urls := UrlsOf(c, url, legs);
    ChainSends(c, url, headers, redirects, total, legs, calls, l, i);
    AuthorizationExact(headers, c.body, urls[..i + 1]);
    assert urls[..i + 1][i] == urls[i];
    var h := HeadersAfter(headers, c.body, urls[..i + 1]);
    var wire := legs[i].wire;
    assert IsRequest(wire, c, urls[i], h) && Carries(h, headers, c.body, urls[..i + 1]);
    RequestBegins(wire, c, urls[i], h);
    WireHolds(wire, c, urls[i], h, headers, urls[..i + 1]);
  }

  lemma WireHolds(wire: string, c: Setup, url: Parts, h: Headers, headers: Headers, urls: seq<Parts>)
    requires urls != [] && IsRequest(wire, c, url, h) && Carries(h, headers, c.body, urls)
    ensures forall k | k in headers && k != "Host" && (k != "Content-Length" || c.body == "") ::
              Contains(wire, k + ": " + headers[k] + CRLF)
    ensures Contains(wire, "Host: " + urls[|urls| - 1].host + CRLF)
    ensures c.body != "" ==> Contains(wire, "Content-Length: " + Numbers.Numeral(|c.body|, 10) + CRLF)
    ensures AuthorizationOf(headers, urls).Some? ==>
              Contains(wire, "Authorization: " + AuthorizationOf(headers, urls).value + CRLF)
  {
    hide IsRequest, AuthorizationOf, Contains, Numbers.Numeral;
    forall k | k in headers && k != "Host" && (k != "Content-Length" || c.body == "")
      ensures Contains(wire, k + ": " + headers[k] + CRLF)
    {
      RequestHolds(wire, c, url, h, k);
    }
    RequestHolds(wire, c, url, h, "Host");
    assert "Host" + ": " == "Host: ";
    if c.body != "" {
      RequestHolds(wire, c, url, h, "Content-Length");
      assert "Content-Length" + ": " == "Content-Length: ";
    }
    if "Authorization" in h {
      RequestHolds(wire, c, url, h, "Authorization");
      assert "Authorization" + ": " == "Authorization: ";
    }
  }

  // ---------- Calls that were due ----------

  lemma NoErrorEnd()
    ensures forall outcome: Outcome :: !outcome.ChunkError? ==> ErrorEnd(outcome) == []
    ensures forall events: seq<Event> :: events + [] == events
  {
  }

  /** Reading ends before the response does: by a cancel, or with the connection. */
  lemma ReadingBroken(a: History, b: History, c: History, f: Reaction, l: Link) returns (calls: seq<Event>)
    requires f.outcome.Continue? && l.cancelled == !c.valid
    requires Adds(a, b, f.events + ErrorEnd(Continue))
    requires (!c.valid && Adds(b, c, [])) || (Breaks(l) && Adds(b, c, BreakCalls(l)))
    ensures Adds(a, c, calls) && Concludes(f, calls, l)
  {
    hide BreakCalls, Breaks, Adds;
    assert f.events + [] == f.events;
    if !c.valid && Adds(b, c, []) {
      AddsMore(a, b, c, f.events, []);
      AddsUnheard(a, c, f.events, OnDisconnected);
      calls := f.events + [OnDisconnected];
    } else {
      AddsMore(a, b, c, f.events, BreakCalls(l));
      calls := f.events + BreakCalls(l);
    }
  }

  lemma ReadMore(a: History, b: History, c: History, first: seq<Event>, more: seq<Event>, end: seq<Event>)
    requires Adds(a, b, first + ErrorEnd(Continue)) && Adds(b, c, more + end)
    ensures Adds(a, c, first + more + end)
  {
    hide Adds;
    assert first + [] == first;
    AddsMore(a, b, c, first, more + end);
    assert first + (more + end) == first + more + end;
  }

  lemma Concluded(a: History, b: History, c: History, f: Reaction, l: Link)
    requires Adds(a, b, f.events + ErrorEnd(f.outcome)) && !f.outcome.Continue?
    requires Adds(b, c, if f.outcome.Close? then [OnDisconnected] else [])
    ensures Adds(a, c, f.events + EndCalls(f.outcome, l)) && Concludes(f, f.events + EndCalls(f.outcome, l), l)
  {
    hide Adds;
    var end := if f.outcome.Close? then [OnDisconnected] else [];
    AddsMore(a, b, c, f.events + ErrorEnd(f.outcome), end);
    assert f.events + ErrorEnd(f.outcome) + end == f.events + EndCalls(f.outcome, l);
  }

  lemma RedirectedSilently(f: Reaction, l: Link)
    ensures f.outcome.Redirect? && f.events == [] ==> f.events + EndCalls(f.outcome, l) == []
  {
  }

  /** A request that is refused reports it, and that is the end of it. */
  lemma RefusedRun(calls: seq<Event>, made: seq<Event>)
    requires made <= [] + calls
    ensures AtEnd(calls) ==> InLanguage(calls) && CountDisconnected(calls) == 1 + Hits(0) && Begins(made)
  {
    hide PhaseOf, CountDisconnected, InLanguage, Begins;
    assert [] + calls == calls;
    if AtEnd(calls) {
      EmptyTrace();
      FinishesAtEnd([], calls);
      LanguageExact(calls);
      BeginsShorter(made, calls);
    }
  }

  lemma EmptyTrace()
    ensures PhaseOf([]) == Open && CountDisconnected([]) == 0
  {
  }

  lemma StartedRun(c: Setup, url: Parts, headers: Headers, total: nat, legs: seq<Attempt>, calls: seq<Event>, l: Link,
                   made: seq<Event>)
    requires Chain(c, url, headers, 0, total, legs, calls, l) && made <= [] + calls
    ensures !Feed(LastParts(legs), c.allowRedirect).outcome.Crash? ==>
              && (InLanguage(calls) <==> total <= 7)
              && CountDisconnected(calls) == 1 + Hits(total)
    ensures total <= 7 ==> Begins(made)
    ensures |legs| + (if Rejects(LastParts(legs), c.allowRedirect) then 1 else 0) == total + 1
  {
    hide Chain, InLanguage, CountDisconnected, Begins, Feed, Rejects, Hits, LastParts;
    ChainCounts(c, url, headers, 0, total, legs, calls, l);
    ChainLanguage(c, url, headers, total, legs, calls, l);
    assert [] + calls == calls && calls + [] == calls;
    if total <= 7 {
      BeginsShorter(made, calls + MissingAt(c, legs));
    }
  }

  // ---------- Putting legs together ----------

  lemma LastLeg(first: Attempt, more: seq<Attempt>)
    ensures LastParts([first] + more) == if more == [] then first.parts else LastParts(more)
  {
  }

  lemma AnsweredConnects(c: Setup, url: Parts, headers: Headers, redirects: nat, total: nat, first: Attempt,
                         more: seq<Attempt>, calls: seq<Event>, l: Link)
    requires IsRequest(first.wire, c, url, Prepared(headers, c.body, url))
    requires Answered(c, Feed(first.parts, c.allowRedirect), Prepared(headers, c.body, url), redirects, total, more,
                      calls, l)
    ensures Connected(c, url, headers, redirects, total, [first] + more, calls, l)
  {
    hide Answered, IsRequest, Prepared, Feed;
    assert ([first] + more)[1..] == more;
  }

  lemma UnsentConnects(c: Setup, url: Parts, headers: Headers, redirects: nat, leg: Attempt, l: Link)
    requires SendFails(l) && leg.parts == []
    requires leg.wire == "" || StartsRequest(leg.wire, c, url, Prepared(headers, c.body, url))
    ensures Connected(c, url, headers, redirects, redirects, [leg], SendCalls(l), l)
  {
    hide Answered, IsRequest, Prepared, Feed, StartsRequest;
    assert Unsent(c, url, headers, redirects, redirects, [leg], SendCalls(l), l);
  }

  /** What is on the wire is some of the request, or all of it. */
  lemma WirePart(c: Setup, url: Parts, headers: Headers, order: seq<string>, wire: string)
    requires Enumerates(order, headers)
    ensures wire <= MessageText(c, url, headers, order) ==> StartsRequest(wire, c, url, headers)
    ensures wire == MessageText(c, url, headers, order) ==> IsRequest(wire, c, url, headers)
  {
  }
}
