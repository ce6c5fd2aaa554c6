/** The callbacks a request makes, and the language of its callback traces. */
module Trace {
  import ResponseHeaders

  /** Type.h's ResultCode. */
  datatype ResultCode = Success | Failed | CreateSocketFailed | GetFlagsFailed | SetFlagsFailed
    | SetNoSigPipeFailed | ConnectAddressError | ConnectTypeInconsistent | ConnectGenericError
    | Retry | RetryReachMaxCount | Timeout | UrlInvalid | SchemeNotSupported | GetAddressFailed
    | MethodError | Disconnected | Completed | RedirectError | RedirectReachMaxCount | ChunkSizeError

  /** A point at which a handler is called, and the point at which another thread cancelled. */
  datatype Event = OnConnected
    | OnParseHeaderDone(header: ResponseHeaders.ResponseHeader)
    | OnData(bytes: string)
    | OnError(code: ResultCode, errorCode: int)
    | OnDisconnected
    | Cancelled

  /** Which handlers the user has set. */
  datatype Handlers = Handlers(connected: bool, headerDone: bool, data: bool, disconnected: bool, error: bool)

  const ALL_HANDLERS: Handlers := Handlers(true, true, true, true, true)

  predicate Calls(h: Handlers, e: Event) {
    match e
    case OnConnected => h.connected
    case OnParseHeaderDone(_) => h.headerDone
    case OnData(_) => h.data
    case OnDisconnected => h.disconnected
    case OnError(_, _) => h.error
    case Cancelled => false
  }

  /** The calls the user sees: the points whose handler is set. */
  function Observed(h: Handlers, points: seq<Event>): seq<Event> {
    if points == [] then []
    else
      var e := points[|points| - 1];
      Observed(h, points[..|points| - 1]) + if Calls(h, e) then [e] else []
  }

  lemma {:induction false} ObservedAll(points: seq<Event>)
    requires Cancelled !in points
    ensures Observed(ALL_HANDLERS, points) == points
  {
    if points != [] {
      var n := |points| - 1;
      assert points[n] in points;
      ObservedAll(points[..n]);
      assert points == points[..n] + [points[n]];
    }
  }

  /** The events of one kind. */
  function Only(t: seq<Event>, kind: Event -> bool): seq<Event> {
    if t == [] then []
    else
      var e := t[|t| - 1];
      Only(t[..|t| - 1], kind) + if kind(e) then [e] else []
  }

  lemma OnlyStep(t: seq<Event>, e: Event, kind: Event -> bool)
    ensures Only(t + [e], kind) == Only(t, kind) + if kind(e) then [e] else []
  {
    assert (t + [e])[..|t|] == t;
  }

  lemma {:induction false} OnlyObserved(h: Handlers, points: seq<Event>, kind: Event -> bool, handled: bool)
    requires forall e :: kind(e) ==> (Calls(h, e) <==> handled)
    ensures Only(Observed(h, points), kind) == if handled then Only(points, kind) else []
  {
    if points != [] {
      var n := |points| - 1;
      OnlyObserved(h, points[..n], kind, handled);
      OnlyStep(Observed(h, points[..n]), points[n], kind);
      assert Observed(h, points[..n]) + [] == Observed(h, points[..n]);
      assert Only(points[..n], kind) + [] == Only(points[..n], kind);
    }
  }

  /** Whatever handlers are set: of each kind the user sees all points when its handler is set, and none
      otherwise; of the cancel he sees nothing. */
  lemma ObservedKinds(h: Handlers, points: seq<Event>)
    ensures var connected := (e: Event) => e.OnConnected?;
            Only(Observed(h, points), connected) == if h.connected then Only(points, connected) else []
    ensures var headerDone := (e: Event) => e.OnParseHeaderDone?;
            Only(Observed(h, points), headerDone) == if h.headerDone then Only(points, headerDone) else []
    ensures var data := (e: Event) => e.OnData?;
            Only(Observed(h, points), data) == if h.data then Only(points, data) else []
    ensures var error := (e: Event) => e.OnError?;
            Only(Observed(h, points), error) == if h.error then Only(points, error) else []
    ensures var disconnected := (e: Event) => e.OnDisconnected?;
            Only(Observed(h, points), disconnected) == if h.disconnected then Only(points, disconnected) else []
    ensures Cancelled !in Observed(h, points)
  {
    OnlyObserved(h, points, (e: Event) => e.OnConnected?, h.connected);
    OnlyObserved(h, points, (e: Event) => e.OnParseHeaderDone?, h.headerDone);
    OnlyObserved(h, points, (e: Event) => e.OnData?, h.data);
    OnlyObserved(h, points, (e: Event) => e.OnError?, h.error);
    OnlyObserved(h, points, (e: Event) => e.OnDisconnected?, h.disconnected);
    NoneCancelled(h, points);
  }

  lemma {:induction false} NoneCancelled(h: Handlers, points: seq<Event>)
    ensures Cancelled !in Observed(h, points)
  {
    if points != [] {
      NoneCancelled(h, points[..|points| - 1]);
    }
  }

  /** The user sees these points, in their order and nothing else. */
  ghost predicate Picks(log: seq<Event>, points: seq<Event>, at: seq<nat>) {
    && |at| == |log|
    && (forall i | 0 <= i < |at| :: at[i] < |points| && points[at[i]] == log[i])
    && (forall i, j | 0 <= i < j < |at| :: at[i] < at[j])
  }

  lemma PicksMore(log: seq<Event>, points: seq<Event>, at: seq<nat>, e: Event)
    requires Picks(log, points, at)
    ensures Picks(log, points + [e], at)
    ensures Picks(log + [e], points + [e], at + [|points|])
  {
  }

  lemma {:induction false} CalledPoints(h: Handlers, points: seq<Event>) returns (at: seq<nat>)
    ensures Picks(Observed(h, points), points, at)
    ensures forall j: nat | j < |points| :: j in at <==> Calls(h, points[j])
  {
    hide Calls;
    if points == [] {
      at := [];
    } else {
      var n := |points| - 1;
      var init, e := points[..n], points[n];
      var before := CalledPoints(h, init);
      PicksMore(Observed(h, init), init, before, e);
      assert points == init + [e];
      at := before + if Calls(h, e) then [n] else [];
      forall j: nat | j < |points|
        ensures j in at <==> Calls(h, points[j])
      {
        assert j < n ==> points[j] == init[j];
        assert n !in before;
      }
      assert Observed(h, init) + [] == Observed(h, init) && before + [] == before;
    }
  }

  /** The points seen are those whose handler is set. */
  lemma ObservedExact(h: Handlers, points: seq<Event>)
    ensures exists at: seq<nat> ::
              && Picks(Observed(h, points), points, at)
              && forall j: nat | j < |points| ::
                   j in at <==> || (points[j].OnConnected? && h.connected)
                                || (points[j].OnParseHeaderDone? && h.headerDone)
                                || (points[j].OnData? && h.data)
                                || (points[j].OnError? && h.error)
                                || (points[j].OnDisconnected? && h.disconnected)
  {
    hide Picks, Observed;
    var at := CalledPoints(h, points);
    assert forall j: nat | j < |points| ::
        Calls(h, points[j]) <==> || (points[j].OnConnected? && h.connected)
                                 || (points[j].OnParseHeaderDone? && h.headerDone)
                                 || (points[j].OnData? && h.data)
                                 || (points[j].OnError? && h.error)
                                 || (points[j].OnDisconnected? && h.disconnected);
  }

  // ---------- The trace language ----------

  /** How far a trace has come. */
  datatype Phase = Open | Body | Broken | Closed | Bad

  function Next(p: Phase, e: Event): Phase {
    match e
    case OnConnected => if p.Open? then Open else Bad
    case OnParseHeaderDone(_) => if p.Open? then Body else Bad
    case OnData(_) => if p.Body? then Body else Bad
    case OnError(_, _) => if p.Open? || p.Body? then Broken else Bad
    case OnDisconnected => if p.Closed? || p.Bad? then Bad else Closed
    case Cancelled => Bad
  }

  function PhaseOf(trace: seq<Event>): Phase {
    if trace == [] then Open else Next(PhaseOf(trace[..|trace| - 1]), trace[|trace| - 1])
  }

  lemma PhaseStep(trace: seq<Event>, e: Event)
    ensures PhaseOf(trace + [e]) == Next(PhaseOf(trace), e)
  {
    assert (trace + [e])[..|trace|] == trace;
  }

  ghost predicate AllConnected(t: seq<Event>) {
    forall i | 0 <= i < |t| :: t[i].OnConnected?
  }

  ghost predicate HeaderAndData(t: seq<Event>) {
    |t| > 0 && t[0].OnParseHeaderDone? && forall i | 0 < i < |t| :: t[i].OnData?
  }

  ghost predicate AtEnd(t: seq<Event>) {
    t == [OnDisconnected] || (|t| == 2 && t[0].OnError? && t[1] == OnDisconnected)
  }

  /** Connected* (HeaderDone Data*)? Error? Disconnected */
  ghost predicate InLanguage(t: seq<Event>) {
    exists c, d :: 0 <= c <= d <= |t| && AllConnected(t[..c])
                   && (c == d || HeaderAndData(t[c..d])) && AtEnd(t[d..])
  }

  lemma {:induction false} OpenExact(t: seq<Event>)
    ensures PhaseOf(t).Open? <==> AllConnected(t)
  {
    if t != [] {
      var n := |t| - 1;
      OpenExact(t[..n]);
      assert AllConnected(t) <==> AllConnected(t[..n]) && t[n].OnConnected?;
    }
  }

  ghost predicate BodyAt(t: seq<Event>, c: nat) {
    c <= |t| && AllConnected(t[..c]) && HeaderAndData(t[c..])
  }

  lemma BodyStep(t: seq<Event>, e: Event, c: nat)
    ensures BodyAt(t + [e], c) <==>
              (c == |t| && AllConnected(t) && e.OnParseHeaderDone?) || (c < |t| && BodyAt(t, c) && e.OnData?)
  {
    var more := t + [e];
    if c < |t| {
      assert more[..c] == t[..c] && more[c..] == t[c..] + [e];
      assert more[c..][|t| - c] == e;
      assert forall i | 0 <= i < |t| - c :: more[c..][i] == t[c..][i];
    } else if c == |t| {
      assert more[..c] == t && more[c..] == [e];
    }
  }

  lemma {:induction false} BodyExact(t: seq<Event>)
    ensures PhaseOf(t).Body? <==> exists c: nat :: BodyAt(t, c)
  {
    hide BodyAt, AllConnected, PhaseOf;
    if t == [] {
      NoBodyYet();
    } else {
      var n := |t| - 1;
      var init, e := t[..n], t[n];
      assert t == init + [e];
      OpenExact(init);
      BodyExact(init);
      PhaseStep(init, e);
      forall c: nat
        ensures BodyAt(t, c) <==>
                  (c == n && AllConnected(init) && e.OnParseHeaderDone?) || (c < n && BodyAt(init, c) && e.OnData?)
      {
        BodyStep(init, e, c);
      }
      BodyIsShorter(init);
      if PhaseOf(t).Body? {
        if e.OnParseHeaderDone? {
          assert BodyAt(t, n);
        } else {
          var c: nat :| BodyAt(init, c);
          assert BodyAt(t, c);
        }
      }
    }
  }

  lemma NoBodyYet()
    ensures PhaseOf([]).Open? && forall c: nat :: !BodyAt([], c)
  {
  }

  lemma BodyIsShorter(t: seq<Event>)
    ensures forall c: nat :: BodyAt(t, c) ==> c < |t|
  {
  }

  /** Where the part before Error? Disconnected ends. */
  ghost predicate LiveUpTo(t: seq<Event>, d: nat) {
    d <= |t| && (PhaseOf(t[..d]).Open? || PhaseOf(t[..d]).Body?)
  }

  lemma ClosedExact(t: seq<Event>)
    ensures PhaseOf(t).Closed? <==> exists d: nat :: LiveUpTo(t, d) && AtEnd(t[d..])
  {
    if PhaseOf(t).Closed? {
      var n := |t| - 1;
      if PhaseOf(t[..n]).Broken? {
        assert t[..n][..n - 1] == t[..n - 1];
        assert t[n - 1..] == [t[n - 1], t[n]];
        assert LiveUpTo(t, n - 1) && AtEnd(t[n - 1..]);
      } else {
        assert t[n..] == [t[n]];
        assert LiveUpTo(t, n) && AtEnd(t[n..]);
      }
    }
    forall d: nat | LiveUpTo(t, d) && AtEnd(t[d..])
      ensures PhaseOf(t).Closed?
    {
      if |t| == d + 1 {
        assert t[d] == t[d..][0];
        assert t == t[..d] + [t[d]];
        PhaseStep(t[..d], t[d]);
      } else {
        assert t[d] == t[d..][0] && t[d + 1] == t[d..][1];
        assert t == t[..d] + [t[d]] + [t[d + 1]];
        PhaseStep(t[..d], t[d]);
        PhaseStep(t[..d] + [t[d]], t[d + 1]);
      }
    }
  }

  /** The automaton accepts exactly the language. */
  lemma LanguageExact(t: seq<Event>)
    ensures PhaseOf(t).Closed? <==> InLanguage(t)
  {
    ClosedExact(t);
    forall d: nat | LiveUpTo(t, d) && AtEnd(t[d..])
      ensures InLanguage(t)
    {
      OpenExact(t[..d]);
      BodyExact(t[..d]);
      if PhaseOf(t[..d]).Open? {
        assert t[..d][..d] == t[..d];
        assert 0 <= d <= d <= |t| && AllConnected(t[..d]);
      } else {
        var c: nat :| BodyAt(t[..d], c);
        assert t[..d][..c] == t[..c] && t[..d][c..] == t[c..d];
      }
    }
    forall c, d | 0 <= c <= d <= |t| && AllConnected(t[..c])
                  && (c == d || HeaderAndData(t[c..d])) && AtEnd(t[d..])
      ensures exists d': nat :: LiveUpTo(t, d') && AtEnd(t[d'..])
    {
      OpenExact(t[..d]);
      BodyExact(t[..d]);
      assert t[..d][..c] == t[..c] && t[..d][c..] == t[c..d];
      assert c < d ==> BodyAt(t[..d], c);
      assert LiveUpTo(t, d);
    }
  }

  function CountDisconnected(t: seq<Event>): nat {
    if t == [] then 0
    else CountDisconnected(t[..|t| - 1]) + if t[|t| - 1].OnDisconnected? then 1 else 0
  }

  /** In the language there is exactly one Disconnected, and it is the last call. */
  lemma {:induction false} ClosedOnce(t: seq<Event>)
    ensures PhaseOf(t).Closed? ==> CountDisconnected(t) == 1 && t[|t| - 1].OnDisconnected?
    ensures PhaseOf(t).Open? || PhaseOf(t).Body? || PhaseOf(t).Broken? ==> CountDisconnected(t) == 0
  {
    if t != [] {
      ClosedOnce(t[..|t| - 1]);
    }
  }

  lemma CountStep(t: seq<Event>, e: Event)
    ensures CountDisconnected(t + [e]) == CountDisconnected(t) + if e.OnDisconnected? then 1 else 0
  {
    assert (t + [e])[..|t|] == t;
  }

  /** A response in a trace: behind Connected* it opens a body, behind an end it is out of place. */
  lemma {:induction false} AppendResponse(t: seq<Event>, response: seq<Event>)
    requires response == [] || HeaderAndData(response)
    ensures CountDisconnected(t + response) == CountDisconnected(t)
    ensures response == [] ==> PhaseOf(t + response) == PhaseOf(t)
    ensures response != [] ==> PhaseOf(t + response) == if PhaseOf(t).Open? then Body else Bad
    decreases |response|
  {
    if response == [] {
      assert t + response == t;
    } else {
      var n := |response| - 1;
      var init, e := response[..n], response[n];
      assert t + response == t + init + [e];
      assert n > 0 ==> HeaderAndData(init);
      AppendResponse(t, init);
      PhaseStep(t + init, e);
      CountStep(t + init, e);
    }
  }

  /** Error? Disconnected ends what is live, and is out of place behind an end. */
  lemma AppendEnd(t: seq<Event>, tail: seq<Event>)
    requires AtEnd(tail)
    ensures CountDisconnected(t + tail) == CountDisconnected(t) + 1
    ensures PhaseOf(t).Open? || PhaseOf(t).Body? ==> PhaseOf(t + tail).Closed?
    ensures PhaseOf(t).Closed? || PhaseOf(t).Bad? ==> PhaseOf(t + tail).Bad?
  {
    if |tail| == 1 {
      PhaseStep(t, OnDisconnected);
      CountStep(t, OnDisconnected);
    } else {
      assert t + tail == t + [tail[0]] + [OnDisconnected];
      PhaseStep(t, tail[0]);
      CountStep(t, tail[0]);
      PhaseStep(t + [tail[0]], OnDisconnected);
      CountStep(t + [tail[0]], OnDisconnected);
    }
  }

  // ---------- Cancelling ----------

  /** Calls that are made only after checking that the request is still valid. */
  predicate Guarded(e: Event) {
    e.OnParseHeaderDone? || e.OnData? || e.OnDisconnected?
  }

  /** After the cancel at most one guarded call is made, and it directly follows: its check was
      made before. */
  ghost predicate CancelSafe(points: seq<Event>) {
    forall i, j | 0 <= i < j < |points| && points[i].Cancelled? ::
      points[j].OnParseHeaderDone? || points[j].OnData? || points[j].OnDisconnected? ==> j == i + 1
  }

  /** The calls made before a cancel, all of them while there is none, and those made after it. */
  datatype History = History(valid: bool, made: seq<Event>, after: seq<Event>) {
    function Points(): seq<Event> {
      if valid then made else made + [Cancelled] + after
    }

    ghost predicate Proper() {
      && Cancelled !in made && Cancelled !in after && (valid ==> after == [])
      && forall j | 0 < j < |after| :: !Guarded(after[j])
    }
  }

  const NOTHING: History := History(true, [], [])

  lemma ProperIsSafe(h: History)
    requires h.Proper()
    ensures CancelSafe(h.Points()) && (h.valid <==> Cancelled !in h.Points())
  {
    var points := h.Points();
    if !h.valid {
      assert points[|h.made|] == Cancelled;
      forall i, j | 0 <= i < j < |points| && points[i].Cancelled?
        ensures points[j].OnParseHeaderDone? || points[j].OnData? || points[j].OnDisconnected? ==> j == i + 1
      {
        assert i == |h.made| && points[j] == h.after[j - i - 1];
      }
    }
  }

  function Unguarded(events: seq<Event>): seq<Event> {
    if events == [] then []
    else
      var n := |events| - 1;
      Unguarded(events[..n]) + if Guarded(events[n]) then [] else [events[n]]
  }

  /** What is called after a cancel without a check: Connected and Error. */
  lemma {:induction false} UnguardedExact(events: seq<Event>)
    requires Cancelled !in events
    ensures Unguarded(events) == Only(events, (e: Event) => e.OnConnected? || e.OnError?)
  {
    if events != [] {
      var n := |events| - 1;
      assert events[n] in events;
      UnguardedExact(events[..n]);
    }
  }

  lemma UnguardedStep(events: seq<Event>, e: Event)
    ensures Unguarded(events + [e]) == Unguarded(events) + if Guarded(e) then [] else [e]
    ensures Unguarded([]) == [] && Unguarded([e]) == if Guarded(e) then [] else [e]
  {
    assert (events + [e])[..|events|] == events;
    assert [e][..0] == [];
  }

  lemma {:induction false} UnguardedAppend(a: seq<Event>, b: seq<Event>)
    ensures Unguarded(a + b) == Unguarded(a) + Unguarded(b)
  {
    hide Unguarded;
    if b == [] {
      assert a + b == a;
      UnguardedStep([], OnConnected);
    } else {
      var n := |b| - 1;
      UnguardedAppend(a, b[..n]);
      UnguardedStep(a + b[..n], b[n]);
      UnguardedStep(b[..n], b[n]);
      assert a + b == a + b[..n] + [b[n]] && b == b[..n] + [b[n]];
    }
  }

  /** The cancel came before the k-th of the calls that were due: of it and the later ones only those are
      made that are not guarded, and the k-th itself when its check was made before. */
  ghost predicate CutBefore(a: History, b: History, due: seq<Event>, k: nat)
    requires k <= |due|
  {
    && b.made == a.made + due[..k]
    && (b.after == a.after + Unguarded(due[k..])
        || (k < |due| && Guarded(due[k]) && b.after == a.after + [due[k]] + Unguarded(due[k + 1..])))
  }

  /** Between `a` and `b` the calls `due` were to be made: without a cancel all of them were, after one
      those that are not guarded, and with one in between both, the one before it and the other after. */
  ghost predicate Adds(a: History, b: History, due: seq<Event>) {
    if b.valid then a.valid && b.made == a.made + due && b.after == a.after
    else if !a.valid then b.made == a.made && b.after == a.after + Unguarded(due)
    else exists k :: 0 <= k <= |due| && CutBefore(a, b, due, k)
  }

  lemma AddsNothing(a: History)
    ensures Adds(a, a, [])
  {
    assert a.made + [] == a.made && a.after + [] == a.after;
  }

  lemma CutInFirst(a: History, b: History, c: History, p: seq<Event>, q: seq<Event>, k: nat)
    requires k <= |p| && CutBefore(a, b, p, k)
    requires c.made == b.made && c.after == b.after + Unguarded(q)
    ensures CutBefore(a, c, p + q, k)
  {
    hide Unguarded;
    assert (p + q)[..k] == p[..k] && (p + q)[k..] == p[k..] + q;
    UnguardedAppend(p[k..], q);
    if b.after == a.after + Unguarded(p[k..]) {
      assert c.after == a.after + (Unguarded(p[k..]) + Unguarded(q));
    } else {
      assert (p + q)[k + 1..] == p[k + 1..] + q && (p + q)[k] == p[k];
      UnguardedAppend(p[k + 1..], q);
      assert c.after == a.after + [p[k]] + (Unguarded(p[k + 1..]) + Unguarded(q));
    }
  }

  lemma CutInSecond(a: History, b: History, c: History, p: seq<Event>, q: seq<Event>, k: nat)
    requires k <= |q| && CutBefore(b, c, q, k)
    requires b.made == a.made + p && b.after == a.after
    ensures CutBefore(a, c, p + q, |p| + k)
  {
    hide Unguarded;
    var n := |p| + k;
    assert (p + q)[..n] == p + q[..k] && (p + q)[n..] == q[k..];
    assert a.made + p + q[..k] == a.made + (p + q[..k]);
    if k < |q| {
      assert (p + q)[n] == q[k] && (p + q)[n + 1..] == q[k + 1..];
    }
  }

  lemma AddsMore(a: History, b: History, c: History, p: seq<Event>, q: seq<Event>)
    requires Adds(a, b, p) && Adds(b, c, q)
    ensures Adds(a, c, p + q)
  {
    hide Unguarded, CutBefore;
    if c.valid {
      assert a.made + p + q == a.made + (p + q);
    } else if !a.valid {
      UnguardedAppend(p, q);
      assert a.after + Unguarded(p) + Unguarded(q) == a.after + (Unguarded(p) + Unguarded(q));
    } else if b.valid {
      var k :| 0 <= k <= |q| && CutBefore(b, c, q, k);
      CutInSecond(a, b, c, p, q, k);
    } else {
      var k :| 0 <= k <= |p| && CutBefore(a, b, p, k);
      CutInFirst(a, b, c, p, q, k);
    }
  }

  /** What has been made before the cancel is a beginning of what was due. */
  lemma AddsBegins(a: History, b: History, due: seq<Event>)
    requires Adds(a, b, due)
    ensures a.made <= b.made <= a.made + due && (b.valid ==> a.valid && b.made == a.made + due)
  {
    if a.valid && !b.valid {
      var k :| 0 <= k <= |due| && CutBefore(a, b, due, k);
      assert a.made + due == a.made + due[..k] + due[k..];
    }
  }

  /** A guarded call due after the cancel is not made. */
  lemma AddsUnheard(a: History, b: History, due: seq<Event>, e: Event)
    requires Adds(a, b, due) && !b.valid && Guarded(e)
    ensures Adds(a, b, due + [e])
  {
    hide Unguarded, CutBefore;
    UnguardedStep([], e);
    assert b.after + [] == b.after;
    AddsMore(a, b, b, due, [e]);
  }

  lemma AddsAfterNothing(a: History, b: History, c: History, due: seq<Event>)
    requires Adds(a, b, []) && Adds(b, c, due)
    ensures Adds(a, c, due) && (c.valid ==> b.valid && a.valid)
  {
    AddsMore(a, b, c, [], due);
    assert [] + due == due;
  }

  /** Guarded calls that were due after the cancel leave nothing behind. */
  lemma AddsNoMore(a: History, b: History, c: History, e: Event)
    requires Adds(a, b, []) && Adds(b, c, [e]) && !b.valid && Guarded(e)
    ensures Adds(a, c, []) && !c.valid
  {
    UnguardedStep([], e);
    assert b.after + [] == b.after && c == b;
  }

  /** One call that is checked: it is made, or was let through, or suppressed. */
  lemma AddsGuarded(a: History, b: History, e: Event, called: bool)
    requires Guarded(e) && (b.valid ==> a.valid && called)
    requires !a.valid ==> b.made == a.made && b.after == a.after
    requires b.valid ==> b.made == a.made + [e] && b.after == a.after
    requires a.valid && !b.valid ==> b.made == a.made && b.after == a.after + if called then [e] else []
    ensures Adds(a, b, [e])
  {
    UnguardedStep([], e);
    assert [e][0..] == [e] && [e][1..] == [] && [e][..0] == [];
    assert a.made + [] == a.made && a.after + [] == a.after && a.after + [e] + [] == a.after + [e];
    if a.valid && !b.valid {
      assert CutBefore(a, b, [e], 0);
    }
  }

  /** One call that is not checked: it is made in any case. */
  lemma AddsUnguarded(a: History, b: History, e: Event)
    requires !Guarded(e) && (b.valid ==> a.valid)
    requires if b.valid then b.made == a.made + [e] && b.after == a.after
             else b.made == a.made && b.after == a.after + [e]
    ensures Adds(a, b, [e])
  {
    UnguardedStep([], e);
    assert [e][0..] == [e] && [e][..0] == [];
    assert a.made + [] == a.made;
    if a.valid && !b.valid {
      assert CutBefore(a, b, [e], 0);
    }
  }

  lemma AddsOnlyCancel(a: History, b: History)
    requires b.made == a.made && b.after == a.after && (b.valid ==> a.valid)
    ensures Adds(a, b, [])
  {
    assert a.made + [] == a.made && a.after + [] == a.after;
    if a.valid && !b.valid {
      var due: seq<Event> := [];
      assert due[..0] == [] && due[0..] == [];
      assert CutBefore(a, b, due, 0);
    }
  }

  lemma ObservedStep(h: Handlers, points: seq<Event>, e: Event)
    ensures Observed(h, points + [e]) == Observed(h, points) + if Calls(h, e) then [e] else []
  {
    assert (points + [e])[..|points|] == points;
  }
}
