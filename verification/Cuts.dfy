/** Where a chunked stream may be cut, in bytes: the decoder's grammar of places, read off the offsets at
    which one read ends and the next begins. */
module Cuts {
  import opened Text
  import opened Chunked

  /** One of these reads ends at offset `n`. */
  ghost predicate CutAt(parts: seq<string>, n: nat) {
    exists i :: 0 < i <= |parts| && |Concat(parts[..i])| == n
  }

  /** No read ends within the `n` bytes from `start` on. */
  ghost predicate Uncut(parts: seq<string>, start: nat, n: nat) {
    forall k: nat | start < k < start + n :: !CutAt(parts, k)
  }

  /** The data begin at `start` with a line break that came in one read with the end of the size line. */
  ghost predicate SkewedAt(parts: seq<string>, start: nat, data: string) {
    CRLF <= data && !CutAt(parts, start) && !CutAt(parts, start + 1)
  }

  /** The chunks from offset `start` on: no cut inside a size line and its line break, and none between
      a chunk's data and the end of the line break behind them, unless the chunk is entered skewed. */
  ghost predicate CutsAllowed(chunks: seq<Chunk>, last: string, parts: seq<string>, start: nat) {
    if chunks == [] then Uncut(parts, start, |last| + 2)
    else
      var data := start + |chunks[0].sizeLine| + 2;
      var end := data + |chunks[0].data|;
      && Uncut(parts, start, |chunks[0].sizeLine| + 2)
      && (SkewedAt(parts, data, chunks[0].data) || (!CutAt(parts, end) && !CutAt(parts, end + 1)))
      && CutsAllowed(chunks[1..], last, parts, end + 2)
  }

  /** The first cut that is not allowed is right behind the data of a chunk, and two bytes or more come in
      the next read. */
  ghost predicate CutThrows(chunks: seq<Chunk>, parts: seq<string>, start: nat) {
    && chunks != []
    && Uncut(parts, start, |chunks[0].sizeLine| + 2)
    && var data := start + |chunks[0].sizeLine| + 2;
       var end := data + |chunks[0].data|;
       if SkewedAt(parts, data, chunks[0].data) then CutThrows(chunks[1..], parts, end + 2)
       else if CutAt(parts, end) then |Concat(parts)| > end && !CutAt(parts, end + 1)
       else !CutAt(parts, end + 1) && CutThrows(chunks[1..], parts, end + 2)
  }

  /** The first cut that is not allowed is elsewhere, or right behind the data of a chunk and only the CR
      behind them comes in the next read. */
  ghost predicate CutErrs(chunks: seq<Chunk>, last: string, parts: seq<string>, start: nat) {
    if chunks == [] then !Uncut(parts, start, |last| + 2)
    else
      var data := start + |chunks[0].sizeLine| + 2;
      var end := data + |chunks[0].data|;
      || !Uncut(parts, start, |chunks[0].sizeLine| + 2)
      || (if SkewedAt(parts, data, chunks[0].data) then CutErrs(chunks[1..], last, parts, end + 2)
          else CutAt(parts, end + 1) || (!CutAt(parts, end) && CutErrs(chunks[1..], last, parts, end + 2)))
  }

  /** Which of the chunks are entered skewed. */
  ghost function SkewedChunks(chunks: seq<Chunk>, parts: seq<string>, start: nat): seq<bool> {
    if chunks == [] then []
    else
      var data := start + |chunks[0].sizeLine| + 2;
      [SkewedAt(parts, data, chunks[0].data)] + SkewedChunks(chunks[1..], parts, data + |chunks[0].data| + 2)
  }

  /** Every chunk entered skewed consists of line breaks only. */
  ghost predicate DataSurvive(chunks: seq<Chunk>, parts: seq<string>, start: nat) {
    chunks == [] ||
    (var data := start + |chunks[0].sizeLine| + 2;
     && (SkewedAt(parts, data, chunks[0].data) ==> OnlyBreaks(chunks[0].data))
     && DataSurvive(chunks[1..], parts, data + |chunks[0].data| + 2))
  }

  // ---------- Offsets ----------

  lemma ConcatFront(r: string, rest: seq<string>)
    ensures Concat([r] + rest) == r + Concat(rest)
  {
    ConcatAppend([r], rest);
    assert [r][..0] == [] && Concat([r]) == Concat([]) + r;
  }

  /** The first read ends behind its bytes, and the others as they would without it, that much later. */
  lemma CutFront(r: string, rest: seq<string>, n: nat)
    ensures CutAt([r] + rest, n) <==> n == |r| || (n >= |r| && CutAt(rest, n - |r|))
  {
    var parts := [r] + rest;
    forall i | 0 < i <= |parts|
      ensures parts[..i] == [r] + rest[..i - 1] && |Concat(parts[..i])| == |r| + |Concat(rest[..i - 1])|
    {
      assert parts[..i] == [r] + rest[..i - 1];
      ConcatFront(r, rest[..i - 1]);
    }
    if n == |r| {
      assert rest[..0] == [] && |Concat(parts[..1])| == n;
    }
    if n >= |r| && CutAt(rest, n - |r|) {
      var i :| 0 < i <= |rest| && |Concat(rest[..i])| == n - |r|;
      assert |Concat(parts[..i + 1])| == |r| + |Concat(rest[..i + 1 - 1])| == n;
    }
    if CutAt(parts, n) {
      var i :| 0 < i <= |parts| && |Concat(parts[..i])| == n;
      assert i == 1 ==> rest[..0] == [];
      assert i > 1 ==> 0 < i - 1 <= |rest| && |Concat(rest[..i - 1])| == n - |r|;
    }
  }

  /** The cuts of `more` are those of `parts`, counted from offset `d` on. */
  ghost predicate Later(more: seq<string>, parts: seq<string>, d: nat) {
    forall k: nat | k > 0 :: CutAt(more, k) <==> CutAt(parts, d + k)
  }

  lemma DropBytes(r: string, rest: seq<string>, d: nat)
    requires d <= |r|
    ensures Later([r[d..]] + rest, [r] + rest, d)
    ensures |Concat([r] + rest)| == d + |Concat([r[d..]] + rest)|
  {
    ConcatFront(r, rest);
    ConcatFront(r[d..], rest);
    forall k: nat | k > 0
      ensures CutAt([r[d..]] + rest, k) <==> CutAt([r] + rest, d + k)
    {
      CutFront(r, rest, d + k);
      CutFront(r[d..], rest, k);
    }
  }

  lemma DropRead(r: string, rest: seq<string>)
    ensures Later(rest, [r] + rest, |r|)
    ensures |Concat([r] + rest)| == |r| + |Concat(rest)|
  {
    ConcatFront(r, rest);
    forall k: nat | k > 0
      ensures CutAt(rest, k) <==> CutAt([r] + rest, |r| + k)
    {
      CutFront(r, rest, |r| + k);
    }
  }

  lemma FirstCut(r: string, rest: seq<string>)
    ensures CutAt([r] + rest, |r|) && forall n: nat | n < |r| :: !CutAt([r] + rest, n)
  {
    CutFront(r, rest, |r|);
    forall n: nat | n < |r|
      ensures !CutAt([r] + rest, n)
    {
      CutFront(r, rest, n);
    }
  }

  lemma UncutLater(more: seq<string>, parts: seq<string>, d: nat, start: nat, n: nat)
    requires Later(more, parts, d)
    ensures Uncut(more, start, n) <==> Uncut(parts, d + start, n)
  {
    hide CutAt;
    if Uncut(more, start, n) {
      forall k: nat | d + start < k < d + start + n
        ensures !CutAt(parts, k)
      {
        assert !CutAt(more, k - d);
        assert k == d + (k - d);
      }
    }
    if Uncut(parts, d + start, n) {
      forall k: nat | start < k < start + n
        ensures !CutAt(more, k)
      {
        assert !CutAt(parts, d + k);
      }
    }
  }

  lemma {:induction false} AllowedLater(chunks: seq<Chunk>, last: string, more: seq<string>, parts: seq<string>, d: nat,
                                        start: nat)
    requires Later(more, parts, d)
    ensures CutsAllowed(chunks, last, more, start) <==> CutsAllowed(chunks, last, parts, d + start)
    ensures SkewedChunks(chunks, more, start) == SkewedChunks(chunks, parts, d + start)
    ensures DataSurvive(chunks, more, start) <==> DataSurvive(chunks, parts, d + start)
    ensures CutErrs(chunks, last, more, start) <==> CutErrs(chunks, last, parts, d + start)
    ensures |Concat(parts)| == d + |Concat(more)| ==>
              (CutThrows(chunks, more, start) <==> CutThrows(chunks, parts, d + start))
    decreases |chunks|
  {
    hide CutAt, Uncut;
    if chunks == [] {
      UncutLater(more, parts, d, start, |last| + 2);
    } else {
      var data := start + |chunks[0].sizeLine| + 2;
      var end := data + |chunks[0].data|;
      UncutLater(more, parts, d, start, |chunks[0].sizeLine| + 2);
      AllowedLater(chunks[1..], last, more, parts, d, end + 2);
      assert CutAt(more, data) == CutAt(parts, d + data) && CutAt(more, data + 1) == CutAt(parts, d + (data + 1));
      assert CutAt(more, end) == CutAt(parts, d + end) && CutAt(more, end + 1) == CutAt(parts, d + (end + 1));
    }
  }

  // ---------- Places and offsets ----------

  lemma ReachSnoc(p: Place, init: seq<string>, r: string, last: string)
    ensures Reach(p, init + [r], last) == Moved(Reach(p, init, last), r, last)
    ensures MarksOf(p, init + [r], last) == MarksOf(p, init, last) + Marks(Reach(p, init, last), |r|, last)
    ensures Reach(p, [], last) == p && MarksOf(p, [], last) == []
  {
    hide Advance, Marks;
    assert (init + [r])[..|init|] == init;
  }

  lemma {:induction false} ReachFront(p: Place, r: string, rest: seq<string>, last: string)
    ensures Reach(p, [r] + rest, last) == Reach(Moved(p, r, last), rest, last)
    ensures MarksOf(p, [r] + rest, last) == Marks(p, |r|, last) + MarksOf(Moved(p, r, last), rest, last)
    decreases |rest|
  {
    hide Advance, Marks, Reach, MarksOf, Moved;
    var q := Moved(p, r, last);
    if rest == [] {
      ReachSnoc(p, [], r, last);
      ReachSnoc(q, [], r, last);
      assert [] + [r] == [r] + rest;
    } else {
      var n := |rest| - 1;
      ReachFront(p, r, rest[..n], last);
      ReachSnoc(p, [r] + rest[..n], rest[n], last);
      ReachSnoc(q, rest[..n], rest[n], last);
      assert [r] + rest == [r] + rest[..n] + [rest[n]] && rest == rest[..n] + [rest[n]];
    }
  }

  lemma {:induction false} ReachStays(p: Place, parts: seq<string>, last: string)
    requires p.Finished? || p.Threw? || p.Stuck?
    ensures Reach(p, parts, last) == p && MarksOf(p, parts, last) == []
  {
    if parts != [] {
      ReachStays(p, parts[..|parts| - 1], last);
    }
  }

  predicate DataFilled(chunks: seq<Chunk>) {
    forall i | 0 <= i < |chunks| :: chunks[i].data != ""
  }

  /** Where the chunk behind the current one begins, counted from the place. */
  function Behind(p: Place): nat {
    match p
    case InData(left, _) => |left| + 2
    case InSkewed(left, _) => |left|
    case _ => 0
  }

  /** A read has ended right behind the data of a chunk; its line break comes next. */
  lemma {:induction false} ReachFromBreak(rest: seq<string>, last: string)
    ensures var q := Reach(AtBreak, rest, last);
            && !q.Finished?
            && (q.Threw? <==> |Concat(rest)| > 0 && !CutAt(rest, 1))
            && (q.Stuck? <==> CutAt(rest, 1))
  {
    hide CutAt, Reach;
    if rest == [] {
      ReachSnoc(AtBreak, [], "", last);
      NoCuts(1);
    } else {
      var r, more := rest[0], rest[1..];
      assert rest == [r] + more;
      ReachFront(AtBreak, r, more, last);
      CutFront(r, more, 1);
      ConcatFront(r, more);
      if r == "" {
        ReachFromBreak(more, last);
      } else {
        ReachStays(Moved(AtBreak, r, last), more, last);
      }
    }
  }

  lemma NoCuts(n: nat)
    ensures !CutAt([], n)
  {
  }

  lemma {:induction false} NothingFails(chunks: seq<Chunk>, last: string, start: nat)
    ensures !CutThrows(chunks, [], start) && !CutErrs(chunks, last, [], start)
    decreases |chunks|
  {
    if chunks != [] {
      NothingFails(chunks[1..], last, start + |chunks[0].sizeLine| + 2 + |chunks[0].data| + 2);
    }
  }

  ghost predicate PlaceThrows(p: Place, parts: seq<string>) {
    if p.InData? then
      if CutAt(parts, |p.left|) then |Concat(parts)| > |p.left| && !CutAt(parts, |p.left| + 1)
      else !CutAt(parts, |p.left| + 1) && CutThrows(p.chunks, parts, |p.left| + 2)
    else CutThrows(ChunksOf(p), parts, Behind(p))
  }

  ghost predicate PlaceErrs(p: Place, parts: seq<string>, last: string) {
    if p.InData? then
      CutAt(parts, |p.left| + 1) || (!CutAt(parts, |p.left|) && CutErrs(p.chunks, last, parts, |p.left| + 2))
    else CutErrs(ChunksOf(p), last, parts, Behind(p))
  }

  ghost predicate PlaceAllowed(p: Place, parts: seq<string>, last: string) {
    && (p.InData? ==> !CutAt(parts, |p.left|) && !CutAt(parts, |p.left| + 1))
    && CutsAllowed(ChunksOf(p), last, parts, Behind(p))
  }

  /** Finished is reached exactly when the bytes up to the end of the last-chunk line have arrived and
      every cut among them is allowed; and the first that is not tells how it fails. */
  ghost predicate PlaceExact(p: Place, parts: seq<string>, last: string) {
    PlaceFinishes(p, parts, last) && PlaceFails(p, parts, last)
  }

  ghost predicate PlaceFinishes(p: Place, parts: seq<string>, last: string) {
    && (Reach(p, parts, last).Finished? <==>
        |Concat(parts)| >= |Remaining(p, last, "")| && PlaceAllowed(p, parts, last))
    && (Reach(p, parts, last).Finished? ==>
        MarksOf(p, parts, last) == SkewedChunks(ChunksOf(p), parts, Behind(p)))
  }

  ghost predicate PlaceFails(p: Place, parts: seq<string>, last: string) {
    && (Reach(p, parts, last).Threw? <==> PlaceThrows(p, parts))
    && (Reach(p, parts, last).Stuck? <==> PlaceErrs(p, parts, last))
  }

  ghost predicate Standing(p: Place) {
    Moving(p) && (p.AtSize? || p.left != "") && DataFilled(p.chunks)
  }

  lemma {:induction false} PlaceIsExact(p: Place, parts: seq<string>, last: string)
    requires Standing(p)
    ensures PlaceExact(p, parts, last)
    decreases |parts|, if parts == [] then 0 else |parts[0]|, if p.InSkewed? then 5 else if p.AtSize? then 3 else 1
  {
    if parts == [] {
      RemainsSome(p, last);
      NothingFails(p.chunks, last, Behind(p));
    } else {
      var r, rest := parts[0], parts[1..];
      assert parts == [r] + rest;
      match p
      case AtSize(chunks) => AtSizeExact(chunks, r, rest, last);
      case InData(left, chunks) => InDataExact(left, chunks, r, rest, last);
      case InSkewed(left, chunks) => InSkewedExact(left, chunks, r, rest, last);
    }
  }

  lemma RemainsSome(p: Place, last: string)
    ensures Standing(p) ==> |Remaining(p, last, "")| > 0
  {
  }

  lemma {:induction false} InDataExact(left: string, chunks: seq<Chunk>, r: string, rest: seq<string>, last: string)
    requires left != "" && DataFilled(chunks)
    ensures PlaceExact(InData(left, chunks), [r] + rest, last)
    decreases |rest| + 1, |r|, 0
  {
    hide Advance, Marks, Reach, MarksOf, CutsAllowed, CutThrows, CutErrs, SkewedChunks, CutAt, Encode;
    var p, n := InData(left, chunks), |r|;
    ReachFront(p, r, rest, last);
    FirstCut(r, rest);
    if n < |left| {
      AdvanceWithin(left, chunks, n, last);
      PlaceIsExact(InData(left[n..], chunks), rest, last);
      DropRead(r, rest);
      AllowedLater(chunks, last, rest, [r] + rest, n, |left| - n + 2);
      assert CutAt(rest, |left| - n) == CutAt([r] + rest, n + (|left| - n));
      assert CutAt(rest, |left| - n + 1) == CutAt([r] + rest, n + (|left| - n + 1));
    } else if n == |left| {
      AdvanceWithin(left, chunks, n, last);
      ReachFromBreak(rest, last);
      DropRead(r, rest);
      assert CutAt(rest, 1) == CutAt([r] + rest, n + 1);
    } else if n < |left| + 2 {
      AdvanceWithin(left, chunks, n, last);
      ReachStays(Stuck, rest, last);
    } else {
      var d := |left| + 2;
      AdvancePastData(left, chunks, n, last);
      ReachFront(AtSize(chunks), r[d..], rest, last);
      PlaceIsExact(AtSize(chunks), [r[d..]] + rest, last);
      DropBytes(r, rest, d);
      AllowedLater(chunks, last, [r[d..]] + rest, [r] + rest, d, 0);
    }
  }

  lemma {:induction false} InSkewedExact(left: string, chunks: seq<Chunk>, r: string, rest: seq<string>, last: string)
    requires left != "" && DataFilled(chunks)
    ensures PlaceExact(InSkewed(left, chunks), [r] + rest, last)
    decreases |rest| + 1, |r|, 4
  {
    hide Advance, Marks, Reach, MarksOf, CutsAllowed, CutThrows, CutErrs, SkewedChunks, CutAt, Encode;
    var p, n, d := InSkewed(left, chunks), |r|, |left|;
    ReachFront(p, r, rest, last);
    if n < d {
      AdvanceWithin(left, chunks, n, last);
      PlaceIsExact(InSkewed(left[n..], chunks), rest, last);
      DropRead(r, rest);
      AllowedLater(chunks, last, rest, [r] + rest, n, d - n);
    } else {
      AdvancePastSkewed(left, chunks, n, last);
      ReachFront(AtSize(chunks), r[d..], rest, last);
      PlaceIsExact(AtSize(chunks), [r[d..]] + rest, last);
      DropBytes(r, rest, d);
      AllowedLater(chunks, last, [r[d..]] + rest, [r] + rest, d, 0);
    }
  }

  lemma {:induction false} AtSizeExact(chunks: seq<Chunk>, r: string, rest: seq<string>, last: string)
    requires DataFilled(chunks)
    ensures PlaceExact(AtSize(chunks), [r] + rest, last)
    decreases |rest| + 1, |r|, 2
  {
    hide Advance, Marks, Reach, MarksOf, CutsAllowed, CutThrows, CutErrs, SkewedChunks, CutAt, Encode;
    var n := |r|;
    if n == 0 {
      ReachFront(AtSize(chunks), r, rest, last);
      NoStep(chunks, last);
      PlaceIsExact(AtSize(chunks), rest, last);
      DropRead(r, rest);
      AllowedLater(chunks, last, rest, [r] + rest, 0, 0);
    } else if chunks == [] {
      LastExact(r, rest, last);
    } else if n < |chunks[0].sizeLine| + 2 {
      ReachFront(AtSize(chunks), r, rest, last);
      FirstCut(r, rest);
      StuckInLine(chunks, [r] + rest, n, last);
      ReachStays(Stuck, rest, last);
    } else {
      DataExact(chunks, r, rest, last);
    }
  }

  lemma NoStep(chunks: seq<Chunk>, last: string)
    ensures Advance(AtSize(chunks), 0, last) == AtSize(chunks) && Marks(AtSize(chunks), 0, last) == []
  {
  }

  lemma StuckInLine(chunks: seq<Chunk>, parts: seq<string>, n: nat, last: string)
    requires 0 < n < (if chunks == [] then |last| else |chunks[0].sizeLine|) + 2 && CutAt(parts, n)
    ensures Advance(AtSize(chunks), n, last) == Stuck && !CutsAllowed(chunks, last, parts, 0)
    ensures CutErrs(chunks, last, parts, 0) && !CutThrows(chunks, parts, 0)
  {
    hide CutAt;
  }

  lemma LastExact(r: string, rest: seq<string>, last: string)
    requires r != ""
    ensures PlaceExact(AtSize([]), [r] + rest, last)
  {
    hide Reach, MarksOf, CutAt;
    ReachFront(AtSize([]), r, rest, last);
    FirstCut(r, rest);
    ConcatFront(r, rest);
    if |r| < |last| + 2 {
      StuckInLine([], [r] + rest, |r|, last);
      ReachStays(Stuck, rest, last);
    } else {
      ReachStays(Finished, rest, last);
      assert Marks(AtSize([]), |r|, last) == [];
    }
  }

  /** A read that ends the size line: whether its chunk is entered skewed, and the rest of the read. */
  lemma {:induction false} DataExact(chunks: seq<Chunk>, r: string, rest: seq<string>, last: string)
    requires chunks != [] && DataFilled(chunks) && |r| >= |chunks[0].sizeLine| + 2
    ensures PlaceExact(AtSize(chunks), [r] + rest, last)
    decreases |rest| + 1, |r|, 1
  {
    hide Advance, Marks, Reach, MarksOf, CutsAllowed, CutThrows, CutErrs, SkewedChunks, CutAt, Encode, Skewed,
         PlaceExact, PlaceFinishes, PlaceFails;
    var parts := [r] + rest;
    var start, data, n := |chunks[0].sizeLine| + 2, chunks[0].data, |r|;
    var m := n - start;
    var d := start + Skipped(data, m);
    var p := Entered(data, chunks[1..], m);
    FilledRest(chunks);
    FirstCut(r, rest);
    SkewedExactly(parts, start, data, m);
    ReachFront(AtSize(chunks), r, rest, last);
    AdvanceIntoData(chunks, n, last);
    ReachFront(p, r[d..], rest, last);
    PlaceIsExact(p, [r[d..]] + rest, last);
    DropBytes(r, rest, d);
    AllowedLater(chunks[1..], last, [r[d..]] + rest, parts, d, Behind(p));
    Both(p, [r[d..]] + rest, last);
    EnteringFinishes(chunks, parts, [r[d..]] + rest, m, last);
    EnteringFails(chunks, parts, [r[d..]] + rest, m, last);
    Both(AtSize(chunks), parts, last);
  }

  lemma Both(p: Place, parts: seq<string>, last: string)
    ensures PlaceExact(p, parts, last) <==> PlaceFinishes(p, parts, last) && PlaceFails(p, parts, last)
  {
    hide PlaceFinishes, PlaceFails;
  }

  lemma FilledRest(chunks: seq<Chunk>)
    requires chunks != [] && DataFilled(chunks)
    ensures chunks[0].data != "" && |Skewed(chunks[0].data)| == |chunks[0].data| && DataFilled(chunks[1..])
  {
  }

  /** The first read ends `m` bytes behind the size line. */
  lemma SkewedExactly(parts: seq<string>, start: nat, data: string, m: nat)
    requires CutAt(parts, start + m) && forall n: nat | n < start + m :: !CutAt(parts, n)
    ensures SkewedAt(parts, start, data) <==> Skews(data, m)
  {
    hide CutAt;
  }

  /** The read goes on behind the size line: `more` is what is left of the reads from there. */
  ghost predicate GoesOn(chunks: seq<Chunk>, parts: seq<string>, more: seq<string>, m: nat, last: string)
    requires chunks != []
  {
    var start, data := |chunks[0].sizeLine| + 2, chunks[0].data;
    var d := start + Skipped(data, m);
    && data != "" && |Skewed(data)| == |data|
    && Later(more, parts, d) && |Concat(parts)| == d + |Concat(more)|
    && (forall n: nat | n < start + m :: !CutAt(parts, n))
    && (SkewedAt(parts, start, data) <==> Skews(data, m))
    && Reach(AtSize(chunks), parts, last) == Reach(Entered(data, chunks[1..], m), more, last)
  }

  lemma CutsBehind(chunks: seq<Chunk>, parts: seq<string>, more: seq<string>, m: nat, last: string)
    requires chunks != [] && GoesOn(chunks, parts, more, m, last)
    ensures var data := |chunks[0].sizeLine| + 2;
            var end := data + |chunks[0].data|;
            var p, d := Entered(chunks[0].data, chunks[1..], m), data + Skipped(chunks[0].data, m);
            && d + Behind(p) == end + 2 && Uncut(parts, 0, data)
            && (SkewedAt(parts, data, chunks[0].data) <==> p.InSkewed?)
            && (p.InData? ==>
                && CutAt(more, |p.left|) == CutAt(parts, end) && CutAt(more, |p.left| + 1) == CutAt(parts, end + 1)
                && (|Concat(more)| > |p.left| <==> |Concat(parts)| > end))
  {
    hide CutAt, Reach, Skewed;
    var data := |chunks[0].sizeLine| + 2;
    var d, n := data + Skipped(chunks[0].data, m), |chunks[0].data|;
    assert CutAt(more, n) == CutAt(parts, d + n) && CutAt(more, n + 1) == CutAt(parts, d + (n + 1));
  }

  lemma EnteringFinishes(chunks: seq<Chunk>, parts: seq<string>, more: seq<string>, m: nat, last: string)
    requires chunks != [] && GoesOn(chunks, parts, more, m, last)
    requires var p := Entered(chunks[0].data, chunks[1..], m);
             var d := |chunks[0].sizeLine| + 2 + Skipped(chunks[0].data, m);
             && (CutsAllowed(chunks[1..], last, more, Behind(p))
                 <==> CutsAllowed(chunks[1..], last, parts, d + Behind(p)))
             && SkewedChunks(chunks[1..], more, Behind(p)) == SkewedChunks(chunks[1..], parts, d + Behind(p))
             && PlaceFinishes(p, more, last)
             && MarksOf(AtSize(chunks), parts, last) == [Skews(chunks[0].data, m)] + MarksOf(p, more, last)
    ensures PlaceFinishes(AtSize(chunks), parts, last)
  {
    hide CutAt, Reach, MarksOf, Skewed, Uncut, Later;
    CutsBehind(chunks, parts, more, m, last);
    RemainingLonger(chunks, m, last);
  }

  lemma EnteringFails(chunks: seq<Chunk>, parts: seq<string>, more: seq<string>, m: nat, last: string)
    requires chunks != [] && GoesOn(chunks, parts, more, m, last)
    requires var p := Entered(chunks[0].data, chunks[1..], m);
             var d := |chunks[0].sizeLine| + 2 + Skipped(chunks[0].data, m);
             && (CutThrows(chunks[1..], more, Behind(p)) <==> CutThrows(chunks[1..], parts, d + Behind(p)))
             && (CutErrs(chunks[1..], last, more, Behind(p)) <==> CutErrs(chunks[1..], last, parts, d + Behind(p)))
             && PlaceFails(p, more, last)
    ensures PlaceFails(AtSize(chunks), parts, last)
  {
    hide CutAt, Reach, Skewed, Uncut, Later, SkewedAt;
    CutsBehind(chunks, parts, more, m, last);
  }

  lemma RemainingLonger(chunks: seq<Chunk>, m: nat, last: string)
    requires chunks != [] && |Skewed(chunks[0].data)| == |chunks[0].data|
    ensures |Remaining(AtSize(chunks), last, "")|
            == |chunks[0].sizeLine| + 2 + Skipped(chunks[0].data, m)
               + |Remaining(Entered(chunks[0].data, chunks[1..], m), last, "")|
  {
    hide Skewed;
  }

  // ---------- Decoding, in bytes ----------

  /** The grammar's machine finishes exactly when everything up to the end of the last-chunk line has
      arrived and every cut in it is allowed; and it marks exactly the chunks entered skewed. */
  lemma FinishedExact(chunks: seq<Chunk>, parts: seq<string>, last: string)
    requires DataFilled(chunks)
    ensures Reach(AtSize(chunks), parts, last).Finished? <==>
              |Concat(parts)| >= |Encode(chunks, last, "")| && CutsAllowed(chunks, last, parts, 0)
    ensures Reach(AtSize(chunks), parts, last).Finished? ==>
              MarksOf(AtSize(chunks), parts, last) == SkewedChunks(chunks, parts, 0)
    ensures Reach(AtSize(chunks), parts, last).Threw? <==> CutThrows(chunks, parts, 0)
    ensures Reach(AtSize(chunks), parts, last).Stuck? <==> CutErrs(chunks, last, parts, 0)
  {
    hide Reach, MarksOf, CutsAllowed, CutThrows, CutErrs, SkewedChunks, Encode;
    PlaceIsExact(AtSize(chunks), parts, last);
  }

  lemma {:induction false} SurviveExact(chunks: seq<Chunk>, parts: seq<string>, start: nat)
    ensures |SkewedChunks(chunks, parts, start)| == |chunks|
    ensures Harmless(chunks, SkewedChunks(chunks, parts, start)) <==> DataSurvive(chunks, parts, start)
    decreases |chunks|
  {
    hide SkewedAt, OnlyBreaks;
    if chunks != [] {
      var rest, next := chunks[1..], start + |chunks[0].sizeLine| + 2 + |chunks[0].data| + 2;
      SurviveExact(rest, parts, next);
      var marks, more := SkewedChunks(chunks, parts, start), SkewedChunks(rest, parts, next);
      assert forall i | 0 < i < |chunks| :: marks[i] == more[i - 1] && chunks[i] == rest[i - 1];
      assert forall i | 0 <= i < |rest| :: more[i] == marks[i + 1] && rest[i] == chunks[i + 1];
    }
  }

  lemma FramedIsFilled(chunks: seq<Chunk>)
    requires AllFramed(chunks)
    ensures DataFilled(chunks)
  {
  }

  /** Chunked decoding under fragmentation, for every list of chunks, every cutting of the stream into
      reads, and however much of it has arrived. The decoder completes if and only if everything up to
      the end of the last-chunk line has arrived and every cut in it is allowed; and the data arrive
      whole if and only if, besides, every chunk entered skewed consists of line breaks only. It throws if
      and only if the first cut that is not allowed is right behind the data of a chunk and the next read
      has two bytes or more; and every other such cut that has been read past is reported as an error. */
  lemma DecodesInBytes(chunks: seq<Chunk>, parts: seq<string>, chunkSize: int, last: string, tail: string)
    requires AllFramed(chunks) && SizeLineFor(last, 0) && chunkSize <= 0
    requires Concat(parts) <= Encode(chunks, last, tail)
    ensures var d := DecodeAll(parts, chunkSize);
            var finished := |Concat(parts)| >= |Encode(chunks, last, "")| && CutsAllowed(chunks, last, parts, 0);
            && (d.status.Completed? <==> finished)
            && (d.status.Completed? && Concat(d.deliveries) == DataOf(chunks)
                <==> finished && DataSurvive(chunks, parts, 0))
            && (d.status.Throws? <==> CutThrows(chunks, parts, 0))
            && (d.status.SizeError? <==> CutErrs(chunks, last, parts, 0))
  {
    hide Encode, DataOf, Arrived, DecodeAll, Reach, MarksOf, Harmless, Marked, Live, CutsAllowed, SkewedChunks,
         DataSurvive, AllFramed, SizeLineFor, CutThrows, CutErrs, BreakPending;
    RunAgrees(chunks, parts, chunkSize, last, tail);
    FramedIsFilled(chunks);
    FinishedExact(chunks, parts, last);
    StatusOfPlace(chunks, Reach(AtSize(chunks), parts, last), MarksOf(AtSize(chunks), parts, last),
                  DecodeAll(parts, chunkSize), Encode(chunks, last, tail)[|Concat(parts)|..], last, tail);
    if Reach(AtSize(chunks), parts, last).Finished? {
      ArrivedExact(chunks, MarksOf(AtSize(chunks), parts, last));
      SurviveExact(chunks, parts, 0);
    }
  }

  lemma StatusOfPlace(chunks: seq<Chunk>, q: Place, marks: seq<bool>, d: Run, remaining: string, last: string,
                      tail: string)
    requires Agrees(chunks, q, marks, d, remaining, last, tail)
    ensures d.status.Completed? <==> q.Finished?
    ensures d.status.Throws? <==> q.Threw?
    ensures d.status.SizeError? <==> q.Stuck?
  {
  }

  lemma {:induction false} ReachKeeps(p: Place, parts: seq<string>, k: nat, last: string)
    requires k <= |parts|
    ensures var q := Reach(p, parts[..k], last);
            q.Finished? || q.Threw? || q.Stuck? ==> Reach(p, parts, last) == q
    ensures var q := Reach(p, parts[..k], last);
            q.AtBreak? ==> var r := Reach(p, parts, last); r.AtBreak? || r.Threw? || r.Stuck?
    decreases |parts|
  {
    if k == |parts| {
      assert parts[..k] == parts;
    } else {
      var n := |parts| - 1;
      assert parts[..n][..k] == parts[..k];
      ReachKeeps(p, parts[..n], k, last);
    }
  }

  lemma {:induction false} EncodeEnds(chunks: seq<Chunk>, last: string, tail: string)
    ensures Encode(chunks, last, tail) == Encode(chunks, last, "") + tail
  {
    if chunks != [] {
      hide Encode;
      EncodeEnds(chunks[1..], last, tail);
      EncodeStep(chunks, last, tail);
      EncodeStep(chunks, last, "");
      var more := Encode(chunks[1..], last, "");
      assert chunks[0].data + CRLF + (more + tail) == chunks[0].data + CRLF + more + tail;
      assert chunks[0].sizeLine + CRLF + (chunks[0].data + CRLF + more + tail)
          == chunks[0].sizeLine + CRLF + (chunks[0].data + CRLF + more) + tail;
    }
  }

  /** At a live place the last-chunk line has not arrived completely. */
  lemma MoreToCome(q: Place, last: string, tail: string)
    requires Live(q)
    ensures |Remaining(q, last, tail)| > |tail|
  {
    hide Encode;
    EncodeEnds(q.chunks, last, tail);
    EncodeNotEmpty(q.chunks, last);
  }

  lemma EncodeNotEmpty(chunks: seq<Chunk>, last: string)
    ensures |Encode(chunks, last, "")| >= 2
  {
  }

  /** The decoder completes in exactly the read that brings the end of the last-chunk line, if it
      completes at all. */
  lemma CompletesWhereTheLastChunkIs(chunks: seq<Chunk>, parts: seq<string>, k: nat, chunkSize: int,
                                     last: string, tail: string)
    requires AllFramed(chunks) && SizeLineFor(last, 0) && chunkSize <= 0
    requires Concat(parts) <= Encode(chunks, last, tail) && k <= |parts|
    ensures DecodeAll(parts[..k], chunkSize).status.Completed? <==>
              DecodeAll(parts, chunkSize).status.Completed? && |Concat(parts[..k])| >= |Encode(chunks, last, "")|
    ensures DecodeAll(parts[..k], chunkSize).status.Completed? <==>
              Reach(AtSize(chunks), parts[..k], last).Finished?
  {
    hide Encode, DataOf, Arrived, DecodeAll, Reach, MarksOf, Marked, Live, CutsAllowed, SkewedChunks, DataSurvive,
         AllFramed, SizeLineFor, BreakPending, Remaining;
    ConcatMonotone(parts, k);
    FramedIsFilled(chunks);
    var q := Reach(AtSize(chunks), parts[..k], last);
    RunAgrees(chunks, parts, chunkSize, last, tail);
    RunAgrees(chunks, parts[..k], chunkSize, last, tail);
    FinishedExact(chunks, parts[..k], last);
    ReachKeeps(AtSize(chunks), parts, k, last);
    var marks, d := MarksOf(AtSize(chunks), parts[..k], last), DecodeAll(parts[..k], chunkSize);
    var remaining := Encode(chunks, last, tail)[|Concat(parts[..k])|..];
    StatusOfPlace(chunks, q, marks, d, remaining, last, tail);
    StatusOfPlace(chunks, Reach(AtSize(chunks), parts, last), MarksOf(AtSize(chunks), parts, last),
                  DecodeAll(parts, chunkSize), Encode(chunks, last, tail)[|Concat(parts)|..], last, tail);
    if Moving(q) {
      AgreesWhenLive(chunks, q, marks, d, remaining, last, tail);
      MoreToCome(q, last, tail);
      EncodeEnds(chunks, last, tail);
    }
  }

  /** So a well-formed body kills the process when a read ends right behind the data of its first chunk. */
  lemma CutBehindDataKills(c: Chunk, rest: seq<Chunk>, more: string)
    requires !(CRLF <= c.data) && |more| >= 2
    ensures CutThrows([c] + rest, [c.sizeLine + CRLF + c.data, more], 0)
  {
    var first := c.sizeLine + CRLF + c.data;
    var parts := [first] + [more];
    ConcatFront(first, [more]);
    ConcatFront(more, []);
    assert [more] == [more] + [] && parts == [first, more];
    forall n: nat
      ensures CutAt(parts, n) <==> n == |first| || n == |first| + |more|
    {
      CutFront(first, [more], n);
      if n >= |first| {
        CutFront(more, [], n - |first|);
      }
    }
  }

  /** Behind a chunk entered skewed a cut before its line break does no harm to completion. */
  lemma SkewedMayBeCut()
    ensures var chunks := [Chunk("4", "\r\nab")];
            var parts := ["4\r\n\r\nab", "\r\n0\r\n"];
            Concat(parts) == Encode(chunks, "0", "") && CutAt(parts, 7) && CutsAllowed(chunks, "0", parts, 0)
  {
    var first, second := "4\r\n\r\nab", "\r\n0\r\n";
    var parts := [first] + [second];
    ConcatFront(first, [second]);
    ConcatFront(second, []);
    assert [second] == [second] + [];
    forall n: nat
      ensures CutAt(parts, n) <==> n == 7 || n == 12
    {
      CutFront(first, [second], n);
      if n >= 7 {
        CutFront(second, [], n - 7);
      }
    }
    var chunk := Chunk("4", "\r\nab");
    assert [chunk][1..] == [] && CRLF <= chunk.data;
    assert parts == [first, second];
    assert CutsAllowed([], "0", parts, 9);
    assert Encode([chunk], "0", "") == "4" + CRLF + chunk.data + CRLF + Encode([], "0", "");
  }
}
