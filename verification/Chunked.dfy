/** parseChunk: chunked transfer coding (section 4.1 of RFC 7230), decoded read by read with
    nothing but the rest of the current chunk's size carried between reads. */
module Chunked {
  import opened Text
  import opened Numbers

  /** What one pass over a buffer consumed, in order. */
  datatype Segment = SizeLine(text: string, size: int) | Payload(bytes: string) | LineBreak

  /** Throws: std::stol found no number, inside a noexcept function. */
  datatype Status = NeedMore | Completed | SizeError | Throws

  datatype Scan = Scan(segments: seq<Segment>, rest: string, chunkSize: int, status: Status)

  function After(first: seq<Segment>, s: Scan): Scan {
    s.(segments := first + s.segments)
  }

  /** The optional line break that is skipped after a size line as well as after chunk data. */
  function Stripped(view: string): string {
    if CRLF <= view then view[2..] else view
  }

  function Break(view: string): seq<Segment> {
    if CRLF <= view then [LineBreak] else []
  }

  /** The decoding loop as a recursion on the remaining view. */
  function Decode(view: string, chunkSize: int): Scan
    decreases |view|
  {
    if view == "" then Scan([], "", chunkSize, NeedMore)
    else if chunkSize <= 0 then
      match Find(view, CRLF, 0)
      case None => Scan([], view, chunkSize, SizeError)
      case Some(pos) =>
        match StolHex(view[..pos])
        case None => Scan([], view, chunkSize, Throws)
        case Some(n) =>
          if n == 0 then Scan([], view, 0, Completed)
          else
            var next := view[pos + 2..];
            After([SizeLine(view[..pos + 2], n)] + Break(next), Decode(Stripped(next), n))
    else
      var size := if chunkSize < |view| then chunkSize else |view|;
      var next := view[size..];
      After([Payload(view[..size])] + Break(next), Decode(Stripped(next), chunkSize - size))
  }

  lemma DecodeStops(view: string, chunkSize: int)
    ensures view == "" ==> Decode(view, chunkSize) == Scan([], "", chunkSize, NeedMore)
    ensures view != "" && chunkSize <= 0 && Find(view, CRLF, 0).None? ==>
              Decode(view, chunkSize) == Scan([], view, chunkSize, SizeError)
    ensures view != "" && chunkSize <= 0 && Find(view, CRLF, 0).Some? ==>
              var n := StolHex(view[..Find(view, CRLF, 0).value]);
              && (n.None? ==> Decode(view, chunkSize) == Scan([], view, chunkSize, Throws))
              && (n == Some(0) ==> Decode(view, chunkSize) == Scan([], view, 0, Completed))
  {
  }

  lemma DecodeSizeLine(view: string, chunkSize: int, pos: nat, n: int)
    requires view != "" && chunkSize <= 0 && Find(view, CRLF, 0) == Some(pos)
    requires StolHex(view[..pos]) == Some(n) && n != 0
    ensures var next := view[pos + 2..];
            Decode(view, chunkSize)
            == After([SizeLine(view[..pos + 2], n)] + Break(next), Decode(Stripped(next), n))
  {
  }

  lemma DecodePayload(view: string, chunkSize: int)
    requires view != "" && chunkSize > 0
    ensures var size := if chunkSize < |view| then chunkSize else |view|;
            var next := view[size..];
            Decode(view, chunkSize)
            == After([Payload(view[..size])] + Break(next), Decode(Stripped(next), chunkSize - size))
  {
  }

  // ---------- Conservation of bytes ----------

  function BytesOf(s: Segment): string {
    match s
    case SizeLine(text, _) => text
    case Payload(bytes) => bytes
    case LineBreak => CRLF
  }

  function AllBytes(segments: seq<Segment>): string {
    if segments == [] then "" else BytesOf(segments[0]) + AllBytes(segments[1..])
  }

  /** The payloads, as `onData` receives them. */
  function Deliveries(segments: seq<Segment>): seq<string> {
    if segments == [] then []
    else (if segments[0].Payload? then [segments[0].bytes] else []) + Deliveries(segments[1..])
  }

  function Delivered(segments: seq<Segment>): string {
    Concat(Deliveries(segments))
  }

  /** The grammar of a decoded stretch: a size line only when the chunk before it is used up, and
      never more payload than the declared or carried-in size. The result is what is left of it. */
  ghost function Replay(segments: seq<Segment>, chunkSize: int): Option<int> {
    if segments == [] then Some(chunkSize)
    else
      match segments[0]
      case LineBreak => Replay(segments[1..], chunkSize)
      case Payload(bytes) =>
        if 0 < |bytes| <= chunkSize then Replay(segments[1..], chunkSize - |bytes|) else None
      case SizeLine(text, size) =>
        if chunkSize <= 0 && |text| >= 2 && Find(text, CRLF, 0) == Some(|text| - 2)
           && StolHex(text[..|text| - 2]) == Some(size)
        then Replay(segments[1..], size) else None
  }

  lemma BreakBytes(view: string, tail: seq<Segment>)
    ensures AllBytes(Break(view) + tail) == (if CRLF <= view then CRLF else "") + AllBytes(tail)
    ensures view == (if CRLF <= view then CRLF else "") + Stripped(view)
    ensures forall n :: Replay(Break(view) + tail, n) == Replay(tail, n)
    ensures Deliveries(Break(view) + tail) == Deliveries(tail)
  {
    var b := Break(view);
    if b == [] {
      assert b + tail == tail;
    } else {
      assert (b + tail)[1..] == tail;
    }
  }

  lemma AfterStep(first: Segment, view: string, s: Scan)
    ensures var t := After([first] + Break(view), s);
            && AllBytes(t.segments) == BytesOf(first) + (if CRLF <= view then CRLF else "") + AllBytes(s.segments)
            && t.segments != [] && t.segments[0] == first
            && t.segments[1..] == Break(view) + s.segments
            && Deliveries(t.segments)
               == (if first.Payload? then [first.bytes] else []) + Deliveries(s.segments)
  {
    var t := After([first] + Break(view), s);
    assert t.segments == [first] + (Break(view) + s.segments);
    BreakBytes(view, s.segments);
  }

  lemma FindInPrefix(view: string, pos: nat)
    requires Find(view, CRLF, 0) == Some(pos)
    ensures Find(view[..pos + 2], CRLF, 0) == Some(pos)
    ensures view[..pos + 2][..pos] == view[..pos]
  {
    var line := view[..pos + 2];
    assert line[pos..pos + 2] == view[pos..pos + 2];
    assert OccursAt(line, CRLF, pos);
    forall j: nat | j < pos
      ensures !OccursAt(line, CRLF, j)
    {
      assert !OccursAt(view, CRLF, j);
      assert line[j..j + 2] == view[j..j + 2];
    }
  }

  ghost predicate Conserved(view: string, chunkSize: int) {
    var s := Decode(view, chunkSize);
    && AllBytes(s.segments) + s.rest == view
    && (s.status.NeedMore? <==> s.rest == "")
    && Replay(s.segments, chunkSize).Some?
    && (s.status.Completed? ==> s.chunkSize == 0 && Replay(s.segments, chunkSize).value <= 0)
    && (!s.status.Completed? ==> s.chunkSize == Replay(s.segments, chunkSize).value)
    && (!s.status.NeedMore? ==> s.chunkSize <= 0)
  }

  /** The segments and the rest are the buffer, cut up in order; a return without error or completion
      has consumed all of it; and the segments obey the grammar, ending with the size that is left. */
  lemma {:induction false} Conserves(view: string, chunkSize: int)
    ensures Conserved(view, chunkSize)
    decreases |view|, 1
  {
    hide Decode, Find, StolHex, Break, Stripped, After, Replay, AllBytes;
    DecodeStops(view, chunkSize);
    NothingReplayed(chunkSize);
    if view != "" && chunkSize <= 0 {
      var pos := Find(view, CRLF, 0);
      if pos.Some? && StolHex(view[..pos.value]).Some? && StolHex(view[..pos.value]) != Some(0) {
        SizeLineConserves(view, chunkSize, pos.value);
      }
    } else if view != "" {
      var size := if chunkSize < |view| then chunkSize else |view|;
      var next := view[size..];
      DecodePayload(view, chunkSize);
      Stripping(next);
      Conserves(Stripped(next), chunkSize - size);
      ReplayPayload(view[..size], chunkSize);
      StepConserves(Payload(view[..size]), next, Decode(Stripped(next), chunkSize - size), chunkSize, chunkSize - size);
      assert view == view[..size] + next;
    }
  }

  lemma {:induction false} SizeLineConserves(view: string, chunkSize: int, pos: nat)
    requires view != "" && chunkSize <= 0 && Find(view, CRLF, 0) == Some(pos)
    requires StolHex(view[..pos]).Some? && StolHex(view[..pos]) != Some(0)
    ensures Conserved(view, chunkSize)
    decreases |view|, 0
  {
    hide Decode, Find, StolHex, Break, Stripped, After, Replay, AllBytes;
    var n := StolHex(view[..pos]).value;
    var next := view[pos + 2..];
    DecodeSizeLine(view, chunkSize, pos, n);
    Stripping(next);
    Conserves(Stripped(next), n);
    FindInPrefix(view, pos);
    ReplaySizeLine(view[..pos + 2], chunkSize, n);
    StepConserves(SizeLine(view[..pos + 2], n), next, Decode(Stripped(next), n), chunkSize, n);
    assert view == view[..pos + 2] + next;
  }

  lemma NothingReplayed(chunkSize: int)
    ensures Replay([], chunkSize) == Some(chunkSize) && AllBytes([]) == ""
  {
  }

  lemma ReplayPayload(bytes: string, chunkSize: int)
    requires 0 < |bytes| <= chunkSize
    ensures Replay([Payload(bytes)], chunkSize) == Some(chunkSize - |bytes|)
  {
    assert [Payload(bytes)][1..] == [];
  }

  lemma ReplaySizeLine(text: string, chunkSize: int, n: int)
    requires chunkSize <= 0 && |text| >= 2 && Find(text, CRLF, 0) == Some(|text| - 2)
    requires StolHex(text[..|text| - 2]) == Some(n)
    ensures Replay([SizeLine(text, n)], chunkSize) == Some(n)
  {
    hide Find, StolHex;
    assert [SizeLine(text, n)][1..] == [];
  }

  lemma Stripping(view: string)
    ensures |Stripped(view)| <= |view|
  {
  }

  lemma StepConserves(first: Segment, next: string, s: Scan, before: int, between: int)
    requires Replay([first], before) == Some(between)
    requires AllBytes(s.segments) + s.rest == Stripped(next)
    ensures var t := After([first] + Break(next), s);
            && AllBytes(t.segments) + t.rest == BytesOf(first) + next
            && Replay(t.segments, before) == Replay(s.segments, between)
            && t.rest == s.rest && t.status == s.status && t.chunkSize == s.chunkSize
  {
    hide Find, StolHex, Break, Stripped, AllBytes, Deliveries, BytesOf;
    AfterStep(first, next, s);
    BreakBytes(next, s.segments);
    assert [first][1..] == [];
  }

  function Positive(n: int): nat {
    if n > 0 then n else 0
  }

  function Declared(segments: seq<Segment>): nat {
    if segments == [] then 0
    else (if segments[0].SizeLine? then Positive(segments[0].size) else 0) + Declared(segments[1..])
  }

  lemma DeliveredStep(first: Segment, rest: seq<Segment>)
    ensures Delivered([first] + rest) == (if first.Payload? then first.bytes else "") + Delivered(rest)
  {
    assert ([first] + rest)[1..] == rest;
    var head := if first.Payload? then [first.bytes] else [];
    ConcatAppend(head, Deliveries(rest));
    assert first.Payload? ==> head[..0] == [] && Concat(head) == Concat([]) + first.bytes;
  }

  /** Bytes delivered plus bytes still owed are the bytes carried in plus the bytes declared. */
  lemma {:induction false} Accounting(segments: seq<Segment>, chunkSize: int)
    requires Replay(segments, chunkSize).Some?
    ensures |Delivered(segments)| + Positive(Replay(segments, chunkSize).value)
            == Positive(chunkSize) + Declared(segments)
  {
    if segments != [] {
      var first, rest := segments[0], segments[1..];
      assert segments == [first] + rest;
      DeliveredStep(first, rest);
      match first
      case LineBreak => Accounting(rest, chunkSize);
      case Payload(bytes) => Accounting(rest, chunkSize - |bytes|);
      case SizeLine(_, size) => Accounting(rest, size);
    }
  }

  // ---------- What the decoder does not survive ----------

  /** A line is complete, and std::stol finds no number in range at its front. */
  predicate Unreadable(view: string) {
    var pos := Find(view, CRLF, 0);
    pos.Some? && StolHex(view[..pos.value]).None?
  }

  /** Decoding throws exactly when what it leaves begins with an unreadable size line. */
  lemma {:induction false} ThrowsExact(view: string, chunkSize: int)
    ensures Decode(view, chunkSize).status.Throws? <==> Unreadable(Decode(view, chunkSize).rest)
    decreases |view|
  {
    hide StolHex, Find, Stripped, Break, Decode;
    DecodeStops(view, chunkSize);
    NoLineInNothing();
    if view != "" && chunkSize <= 0 {
      var pos := Find(view, CRLF, 0);
      if pos.Some? && StolHex(view[..pos.value]).Some? && StolHex(view[..pos.value]) != Some(0) {
        DecodeSizeLine(view, chunkSize, pos.value, StolHex(view[..pos.value]).value);
        Stripping(view[pos.value + 2..]);
        ThrowsExact(Stripped(view[pos.value + 2..]), StolHex(view[..pos.value]).value);
      }
    } else if view != "" {
      var size := if chunkSize < |view| then chunkSize else |view|;
      DecodePayload(view, chunkSize);
      Stripping(view[size..]);
      ThrowsExact(Stripped(view[size..]), chunkSize - size);
    }
  }

  lemma NoLineInNothing()
    ensures Find("", CRLF, 0).None?
  {
  }

  // ---------- Encoded streams and where they may be cut ----------

  datatype Chunk = Chunk(sizeLine: string, data: string)

  /** A chunk-size with any extension behind it, as the decoder's number reader takes it. */
  ghost predicate SizeLineFor(line: string, n: nat) {
    !Contains(line, CRLF) && StolHex(line) == Some(n)
  }

  ghost predicate Framed(c: Chunk) {
    c.data != "" && SizeLineFor(c.sizeLine, |c.data|)
  }

  ghost predicate AllFramed(chunks: seq<Chunk>) {
    forall i | 0 <= i < |chunks| :: Framed(chunks[i])
  }

  /** The chunks, the last-chunk line `last`, and whatever follows it. */
  function Encode(chunks: seq<Chunk>, last: string, tail: string): string {
    if chunks == [] then last + CRLF + tail
    else chunks[0].sizeLine + CRLF + chunks[0].data + CRLF + Encode(chunks[1..], last, tail)
  }

  /** The size line of section 4.1 of RFC 7230: hexadecimal digits in either case, and perhaps an extension. */
  ghost predicate Standard(line: string, n: nat) {
    exists s, v, ext :: StandardAs(line, n, s, v, ext)
  }

  ghost predicate StandardAs(line: string, n: nat, s: string, v: seq<nat>, ext: string) {
    && line == s + ext && s != "" && SpelledBy(s, v) && Positional(v, 16) == n
    && OneLine(ext) && (ext == "" || ext[0] == ';')
  }

  /** Such a size line is read as its number, so a chunk with it is framed, and a line of zeros is a last chunk. */
  lemma StandardChunk(line: string, n: nat)
    requires Standard(line, n) && n <= 9223372036854775807
    ensures SizeLineFor(line, n)
    ensures forall data | |data| == n && n > 0 :: Framed(Chunk(line, data))
  {
    hide SizeLineFor, StandardAs;
    var s, v, ext :| StandardAs(line, n, s, v, ext);
    StandardRead(line, n, s, v, ext);
  }

  lemma StandardRead(line: string, n: nat, s: string, v: seq<nat>, ext: string)
    requires StandardAs(line, n, s, v, ext) && n <= 9223372036854775807
    ensures SizeLineFor(line, n)
  {
    hide StolHex, Positional, OneLine, SpelledBy, EndsNumeral;
    SemicolonEnds(ext);
    SpelledIsOneLine(s, v);
    StandardIsNumeric(s, v, ext);
    ReadersExact("", "", "", s, v, ext, 16);
    assert "" + ("" + ("" + s + ext)) == s + ext;
    TwoOneLines(s, ext);
    OneLineHasNoCrlf(line);
  }

  lemma TwoOneLines(a: string, b: string)
    requires OneLine(a) && OneLine(b)
    ensures OneLine(a + b)
  {
  }

  lemma StandardIsNumeric(s: string, v: seq<nat>, ext: string)
    requires s != "" && SpelledBy(s, v) && EndsNumeral(ext, 16) && (ext == "" || ext[0] == ';')
    ensures Numeric("", "", "", s, v, ext, 16)
  {
  }

  lemma SemicolonEnds(ext: string)
    requires ext == "" || ext[0] == ';'
    ensures EndsNumeral(ext, 16)
  {
    forall v: nat | v < 16
      ensures "0123456789abcdef"[v] != ';' && "0123456789ABCDEF"[v] != ';'
    {
      DigitTable("0123456789abcdef"[v], v);
      DigitTable("0123456789ABCDEF"[v], v);
    }
  }

  lemma SpelledIsOneLine(s: string, v: seq<nat>)
    requires SpelledBy(s, v)
    ensures OneLine(s)
  {
    forall i | 0 <= i < |s|
      ensures s[i] != '\r' && s[i] != '\n'
    {
      DigitTable(s[i], v[i]);
    }
  }

  function DataOf(chunks: seq<Chunk>): string {
    if chunks == [] then "" else chunks[0].data + DataOf(chunks[1..])
  }

  /** What is delivered for a chunk whose size line and first two bytes arrive in one read: a line break
      at the start of the data is skipped, and the one behind the data is taken for data instead. */
  function Skewed(data: string): string {
    if CRLF <= data then data[2..] + CRLF else data
  }

  /** `n` bytes behind the size line are in the read that ends it. */
  predicate Skews(data: string, n: nat) {
    n >= 2 && CRLF <= data
  }

  /** A place in an encoded stream. InSkewed: within data whose first line break was skipped, so that the
      one behind it counts as data. The other four are no places to go on from. AtBreak: a read has ended
      right behind the data of a chunk that was not entered skewed, before its line break. Threw: and the
      next read had two bytes or more. Stuck: a read has ended inside a size line or its line break, or
      inside the line break behind the data of a chunk that was not entered skewed. */
  datatype Place = AtSize(chunks: seq<Chunk>)
    | InData(left: string, chunks: seq<Chunk>)
    | InSkewed(left: string, chunks: seq<Chunk>)
    | AtBreak
    | Finished
    | Threw
    | Stuck

  /** A place at which the decoder goes on as the grammar says. */
  predicate Moving(p: Place) {
    p.AtSize? || p.InData? || p.InSkewed?
  }

  /** Behind a size line, with `n` more bytes in the same read, and how many of them are skipped. */
  function Entered(data: string, chunks: seq<Chunk>, n: nat): Place {
    if Skews(data, n) then InSkewed(Skewed(data), chunks) else InData(data, chunks)
  }

  function Skipped(data: string, n: nat): (k: nat)
    ensures k <= n
  {
    if Skews(data, n) then 2 else 0
  }

  /** The place `n` bytes further on within one read; it depends on the grammar, the lengths, and the
      chunks that begin with a line break. */
  function Advance(p: Place, n: nat, last: string): Place
    decreases n, if p.InSkewed? then 2 else if p.AtSize? then 1 else 0
  {
    match p
    case AtSize(chunks) =>
      if n == 0 then p
      else if chunks == [] then (if n < |last| + 2 then Stuck else Finished)
      else if n < |chunks[0].sizeLine| + 2 then Stuck
      else
        var m := n - |chunks[0].sizeLine| - 2;
        Advance(Entered(chunks[0].data, chunks[1..], m), m - Skipped(chunks[0].data, m), last)
    case InData(left, chunks) =>
      if n < |left| then InData(left[n..], chunks)
      else if n == |left| then AtBreak
      else if n < |left| + 2 then Stuck
      else Advance(AtSize(chunks), n - |left| - 2, last)
    case InSkewed(left, chunks) =>
      if n < |left| then InSkewed(left[n..], chunks)
      else Advance(AtSize(chunks), n - |left|, last)
    case _ => p
  }

  /** For every chunk whose size line the same `n` bytes complete: whether its data are entered skewed. */
  function Marks(p: Place, n: nat, last: string): seq<bool>
    decreases n, if p.InSkewed? then 2 else if p.AtSize? then 1 else 0
  {
    match p
    case AtSize(chunks) =>
      if n == 0 || chunks == [] || n < |chunks[0].sizeLine| + 2 then []
      else
        var m := n - |chunks[0].sizeLine| - 2;
        [Skews(chunks[0].data, m)]
        + Marks(Entered(chunks[0].data, chunks[1..], m), m - Skipped(chunks[0].data, m), last)
    case InData(left, chunks) =>
      if n < |left| + 2 then [] else Marks(AtSize(chunks), n - |left| - 2, last)
    case InSkewed(left, chunks) =>
      if n < |left| then [] else Marks(AtSize(chunks), n - |left|, last)
    case _ => []
  }

  function ChunksOf(p: Place): seq<Chunk> {
    if Moving(p) then p.chunks else []
  }

  /** What of the current chunk is still to be delivered. */
  function Head(p: Place): string {
    if p.InData? || p.InSkewed? then p.left else ""
  }

  function Remaining(p: Place, last: string, tail: string): string {
    match p
    case AtSize(chunks) => Encode(chunks, last, tail)
    case InData(left, chunks) => left + CRLF + Encode(chunks, last, tail)
    case InSkewed(left, chunks) => left + Encode(chunks, last, tail)
    case _ => ""
  }

  function Version(data: string, skewed: bool): string {
    if skewed then Skewed(data) else data
  }

  /** What arrives of the chunks entered so far. */
  function Arrived(chunks: seq<Chunk>, marks: seq<bool>): string {
    if chunks == [] || marks == [] then ""
    else Version(chunks[0].data, marks[0]) + Arrived(chunks[1..], marks[1..])
  }

  /** Marks for the first of these chunks; only data that begin with a line break are entered skewed. */
  ghost predicate Marked(chunks: seq<Chunk>, marks: seq<bool>) {
    |marks| <= |chunks| && forall i | 0 <= i < |marks| :: marks[i] ==> CRLF <= chunks[i].data
  }

  ghost predicate Live(p: Place) {
    && Moving(p) && (p.AtSize? || p.left != "")
    && AllFramed(p.chunks)
  }

  /** What the decoder carries between reads at a live place. */
  predicate Carried(p: Place, chunkSize: int) {
    match p
    case AtSize(_) => chunkSize <= 0
    case InData(left, _) => chunkSize == |left|
    case InSkewed(left, _) => chunkSize == |left|
    case _ => false
  }

  /** The decoder owes nothing, and takes the line break that comes next for a size line. */
  ghost predicate BreakPending(status: Status, chunkSize: int, remaining: string) {
    status.NeedMore? && chunkSize == 0 && CRLF <= remaining
  }

  /** One read from `p`: it ends at a live place with the right carry, or completes, or fails. */
  ghost predicate ReadOk(p: Place, q: Place, marks: seq<bool>, s: Scan, remaining: string, last: string,
                         tail: string) {
    match q
    case Finished =>
      && s.status.Completed? && Marked(ChunksOf(p), marks) && |marks| == |ChunksOf(p)|
      && Delivered(s.segments) == Head(p) + Arrived(ChunksOf(p), marks)
    case AtBreak => BreakPending(s.status, s.chunkSize, remaining)
    case Stuck => s.status.SizeError?
    case Threw => false
    case _ =>
      && Live(q) && s.status.NeedMore? && Carried(q, s.chunkSize)
      && remaining == Remaining(q, last, tail)
      && Marked(ChunksOf(p), marks) && q.chunks == ChunksOf(p)[|marks|..]
      && Delivered(s.segments) + Head(q) == Head(p) + Arrived(ChunksOf(p), marks)
  }

  lemma SizeLineRead(line: string, n: int, rest: string, chunkSize: int)
    requires !Contains(line, CRLF) && StolHex(line) == Some(n) && chunkSize <= 0
    ensures n != 0 ==> Decode(line + CRLF + rest, chunkSize)
                       == After([SizeLine(line + CRLF, n)] + Break(rest), Decode(Stripped(rest), n))
    ensures n == 0 ==> Decode(line + CRLF + rest, chunkSize) == Scan([], line + CRLF + rest, 0, Completed)
  {
    hide Decode, Find, StolHex, Break, Stripped, After;
    var view := line + CRLF + rest;
    CrlfBorderFree();
    FirstOccurrence(line, CRLF, rest);
    assert view[..|line|] == line && view[..|line| + 2] == line + CRLF && view[|line| + 2..] == rest;
    if n == 0 {
      DecodeStops(view, chunkSize);
    } else {
      DecodeSizeLine(view, chunkSize, |line|, n);
    }
  }

  lemma DeliveredAfter(first: Segment, view: string, s: Scan)
    ensures Delivered(After([first] + Break(view), s).segments)
            == (if first.Payload? then first.bytes else "") + Delivered(s.segments)
  {
    hide Break, Stripped;
    AfterStep(first, view, s);
    var t := After([first] + Break(view), s);
    BreakBytes(view, s.segments);
    assert t.segments == [first] + (Break(view) + s.segments);
    DeliveredStep(first, Break(view) + s.segments);
  }

  /** A read that ends inside a line has no line break to find. */
  lemma CutLineFails(line: string, rest: string, r: string, chunkSize: int)
    requires !Contains(line, CRLF) && chunkSize <= 0
    requires r != "" && r <= line + CRLF + rest && |r| < |line| + 2
    ensures Decode(r, chunkSize) == Scan([], r, chunkSize, SizeError)
  {
    hide Decode, Find, StolHex;
    var s := line + CRLF + rest;
    CrlfBorderFree();
    FirstOccurrence(line, CRLF, rest);
    forall j: nat
      ensures !OccursAt(r, CRLF, j)
    {
      if j + 2 <= |r| {
        assert !OccursAt(s, CRLF, j);
        assert s[j..j + 2] == r[j..j + 2];
      }
    }
    DecodeStops(r, chunkSize);
  }

  lemma NoBreakAtStart(data: string, rest: string, r: string)
    requires data != "" && !(CRLF <= data)
    requires r <= data + CRLF + rest
    ensures Stripped(r) == r && Break(r) == []
  {
    var s := data + CRLF + rest;
    if |r| >= 2 {
      assert r[0] == s[0] == data[0] && r[1] == s[1];
      if |data| >= 2 {
        assert s[1] == data[1] && data[..2] == [data[0], data[1]];
      } else {
        assert s[1] == '\r';
      }
    }
  }

  lemma PrefixParts(a: string, b: string, r: string)
    requires r <= a + b && |a| <= |r|
    ensures r == a + r[|a|..] && r[|a|..] <= b
    ensures b[|r| - |a|..] == (a + b)[|r|..]
  {
  }

  /** A payload that uses up the current chunk, in front of a good read. */
  lemma ReadOkAfter(p: Place, q: Place, marks: seq<bool>, next: string, s: Scan, remaining: string,
                    last: string, tail: string)
    requires (p.InData? || p.InSkewed?) && ReadOk(AtSize(p.chunks), q, marks, s, remaining, last, tail)
    ensures ReadOk(p, q, marks, After([Payload(p.left)] + Break(next), s), remaining, last, tail)
  {
    hide Break, Remaining, Live, Arrived, Marked, Delivered, Head, After;
    DeliveredAfter(Payload(p.left), next, s);
    AfterKeeps([Payload(p.left)] + Break(next), s);
    HeadOf(p);
    if Moving(q) || q.Finished? {
      JoinFront(p.left, Delivered(s.segments), Head(q), Arrived(p.chunks, marks));
    }
  }

  lemma HeadOf(p: Place)
    ensures p.InData? || p.InSkewed? ==> Head(p) == p.left && ChunksOf(p) == p.chunks && Head(AtSize(p.chunks)) == ""
  {
  }

  lemma JoinFront(left: string, delivered: string, head: string, arrived: string)
    ensures delivered + head == "" + arrived ==> left + delivered + head == left + arrived
    ensures delivered == "" + arrived ==> left + delivered == left + arrived
  {
    assert "" + arrived == arrived;
    assert left + delivered + head == left + (delivered + head);
  }

  /** A size line in front of a good read of the chunk's data. */
  lemma ReadOkEnter(chunks: seq<Chunk>, m: nat, q: Place, marks: seq<bool>, text: string, next: string, s: Scan,
                    remaining: string, last: string, tail: string)
    requires chunks != []
    requires ReadOk(Entered(chunks[0].data, chunks[1..], m), q, marks, s, remaining, last, tail)
    ensures ReadOk(AtSize(chunks), q, [Skews(chunks[0].data, m)] + marks,
                   After([SizeLine(text, |chunks[0].data|)] + Break(next), s), remaining, last, tail)
  {
    hide Break, Remaining, Live, Arrived, Marked, Delivered, Skews, Skewed;
    DeliveredAfter(SizeLine(text, |chunks[0].data|), next, s);
    MarksCons(chunks, m, marks);
    var p := Entered(chunks[0].data, chunks[1..], m);
    assert "" + Delivered(s.segments) == Delivered(s.segments);
    assert "" + Arrived(chunks, [Skews(chunks[0].data, m)] + marks) == Head(p) + Arrived(chunks[1..], marks);
  }

  lemma MarksCons(chunks: seq<Chunk>, m: nat, marks: seq<bool>)
    requires chunks != []
    ensures var more := [Skews(chunks[0].data, m)] + marks;
            && Arrived(chunks, more) == Head(Entered(chunks[0].data, chunks[1..], m)) + Arrived(chunks[1..], marks)
            && (Marked(chunks[1..], marks) ==> Marked(chunks, more) && chunks[1..][|marks|..] == chunks[|more|..])
  {
    assert ([Skews(chunks[0].data, m)] + marks)[1..] == marks;
    MarkedCons(chunks, Skews(chunks[0].data, m), marks);
  }

  lemma MarkedCons(chunks: seq<Chunk>, mark: bool, marks: seq<bool>)
    requires chunks != [] && (mark ==> CRLF <= chunks[0].data)
    ensures Marked(chunks[1..], marks) ==>
              Marked(chunks, [mark] + marks) && chunks[1..][|marks|..] == chunks[|[mark] + marks|..]
  {
    var more := [mark] + marks;
    assert forall i | 0 < i < |more| :: more[i] == marks[i - 1];
    assert forall i | 0 < i < |chunks| :: chunks[i] == chunks[1..][i - 1];
  }

  lemma AdvanceIntoData(chunks: seq<Chunk>, n: nat, last: string)
    requires chunks != [] && n >= |chunks[0].sizeLine| + 2
    ensures var m := n - |chunks[0].sizeLine| - 2;
            var p, k := Entered(chunks[0].data, chunks[1..], m), m - Skipped(chunks[0].data, m);
            && Advance(AtSize(chunks), n, last) == Advance(p, k, last)
            && Marks(AtSize(chunks), n, last) == [Skews(chunks[0].data, m)] + Marks(p, k, last)
  {
  }

  lemma AdvancePastData(left: string, chunks: seq<Chunk>, n: nat, last: string)
    requires n >= |left| + 2
    ensures Advance(InData(left, chunks), n, last) == Advance(AtSize(chunks), n - |left| - 2, last)
    ensures Marks(InData(left, chunks), n, last) == Marks(AtSize(chunks), n - |left| - 2, last)
  {
  }

  lemma AdvancePastSkewed(left: string, chunks: seq<Chunk>, n: nat, last: string)
    requires n >= |left|
    ensures Advance(InSkewed(left, chunks), n, last) == Advance(AtSize(chunks), n - |left|, last)
    ensures Marks(InSkewed(left, chunks), n, last) == Marks(AtSize(chunks), n - |left|, last)
  {
  }

  /** One read of `r` from `p`, as the decoder and the grammar see it. */
  ghost predicate ReadFrom(p: Place, r: string, chunkSize: int, last: string, tail: string)
    requires |r| <= |Remaining(p, last, tail)|
  {
    ReadOk(p, Advance(p, |r|, last), Marks(p, |r|, last), Decode(r, chunkSize),
           Remaining(p, last, tail)[|r|..], last, tail)
  }

  /** The last-chunk line, or a read that ends within it. */
  lemma ReadLast(r: string, chunkSize: int, last: string, tail: string)
    requires SizeLineFor(last, 0) && chunkSize <= 0 && r != ""
    requires r <= last + CRLF + tail
    ensures ReadFrom(AtSize([]), r, chunkSize, last, tail)
  {
    hide Decode, StolHex;
    if |r| < |last| + 2 {
      CutLineFails(last, tail, r, chunkSize);
    } else {
      PrefixParts(last + CRLF, tail, r);
      SizeLineRead(last, 0, r[|last| + 2..], chunkSize);
    }
  }

  lemma ReadNothing(p: Place, chunkSize: int, last: string, tail: string)
    requires Live(p) && Carried(p, chunkSize)
    ensures ReadFrom(p, "", chunkSize, last, tail)
  {
    hide Decode, AllFramed;
    DecodeStops("", chunkSize);
    assert p.InData? || p.InSkewed? ==> p.left[0..] == p.left;
    assert p.chunks[0..] == p.chunks;
  }

  lemma {:induction false} ReadFromSize(chunks: seq<Chunk>, r: string, chunkSize: int, last: string, tail: string)
    requires Live(AtSize(chunks)) && SizeLineFor(last, 0) && chunkSize <= 0
    requires r <= Encode(chunks, last, tail)
    ensures ReadFrom(AtSize(chunks), r, chunkSize, last, tail)
    decreases |r|, 2
  {
    hide Decode, StolHex, Break, Stripped, After, ReadOk, Advance, Marks;
    if r == "" {
      ReadNothing(AtSize(chunks), chunkSize, last, tail);
    } else if chunks == [] {
      ReadLast(r, chunkSize, last, tail);
    } else {
      var c, rest := chunks[0], chunks[1..];
      var more := c.data + CRLF + Encode(rest, last, tail);
      assert Encode(chunks, last, tail) == c.sizeLine + CRLF + more;
      if |r| < |c.sizeLine| + 2 {
        CutLineFails(c.sizeLine, more, r, chunkSize);
        StuckAtSize(chunks, r, chunkSize, last, tail);
      } else {
        ReadSizeLine(chunks, r, chunkSize, last, tail);
      }
    }
  }

  lemma StuckAtSize(chunks: seq<Chunk>, r: string, chunkSize: int, last: string, tail: string)
    requires chunks != [] && r != "" && |r| < |chunks[0].sizeLine| + 2
    requires |r| <= |Encode(chunks, last, tail)| && Decode(r, chunkSize).status.SizeError?
    ensures ReadFrom(AtSize(chunks), r, chunkSize, last, tail)
  {
    hide Decode, Encode;
  }

  /** A read that holds the whole size line: it goes on within the data, skewed or not. */
  lemma {:induction false} ReadSizeLine(chunks: seq<Chunk>, r: string, chunkSize: int, last: string, tail: string)
    requires Live(AtSize(chunks)) && SizeLineFor(last, 0) && chunkSize <= 0
    requires chunks != [] && |r| >= |chunks[0].sizeLine| + 2 && r <= Encode(chunks, last, tail)
    ensures ReadFrom(AtSize(chunks), r, chunkSize, last, tail)
    decreases |r|, 1
  {
    hide Decode, StolHex, Break, Stripped, After, ReadOk, Advance, Marks, Encode, Skewed, AllFramed, Remaining;
    var c, rest, r' := chunks[0], chunks[1..], r[|chunks[0].sizeLine| + 2..];
    LiveRest(chunks);
    EntersAt(chunks, r, last, tail);
    SizeLineRead(c.sizeLine, |c.data|, r', chunkSize);
    AdvanceIntoData(chunks, |r|, last);
    var p, next := Entered(c.data, rest, |r'|), Stripped(r');
    if Skews(c.data, |r'|) {
      RemainingIn(Skewed(c.data), rest, last, tail);
      ReadFromSkewed(Skewed(c.data), rest, next, last, tail);
    } else {
      RemainingIn(c.data, rest, last, tail);
      ReadFromData(c.data, rest, next, last, tail);
    }
    ReadOkEnter(chunks, |r'|, Advance(p, |next|, last), Marks(p, |next|, last), c.sizeLine + CRLF, r',
                Decode(next, |c.data|), Remaining(p, last, tail)[|next|..], last, tail);
    RemainingAt(chunks, last, tail);
  }

  lemma RemainingIn(left: string, chunks: seq<Chunk>, last: string, tail: string)
    ensures Remaining(InData(left, chunks), last, tail) == left + CRLF + Encode(chunks, last, tail)
    ensures Remaining(InSkewed(left, chunks), last, tail) == left + Encode(chunks, last, tail)
  {
  }

  lemma RemainingAt(chunks: seq<Chunk>, last: string, tail: string)
    ensures Remaining(AtSize(chunks), last, tail) == Encode(chunks, last, tail)
  {
  }

  /** What follows a size line in the read, and the place it is at. */
  lemma EntersAt(chunks: seq<Chunk>, r: string, last: string, tail: string)
    requires chunks != [] && chunks[0].data != ""
    requires |r| >= |chunks[0].sizeLine| + 2 && r <= Encode(chunks, last, tail)
    ensures var r' := r[|chunks[0].sizeLine| + 2..];
            var p, next := Entered(chunks[0].data, chunks[1..], |r'|), Stripped(r');
            && r == chunks[0].sizeLine + CRLF + r'
            && |next| == |r'| - Skipped(chunks[0].data, |r'|)
            && next <= Remaining(p, last, tail)
            && Remaining(p, last, tail)[|next|..] == Encode(chunks, last, tail)[|r|..]
  {
    hide Encode, Stripped;
    var c, more := chunks[0], Encode(chunks[1..], last, tail);
    EncodeStep(chunks, last, tail);
    PrefixParts(c.sizeLine + CRLF, c.data + CRLF + more, r);
    BehindSizeLine(c.data, more, r[|c.sizeLine| + 2..]);
  }

  lemma EncodeStep(chunks: seq<Chunk>, last: string, tail: string)
    requires chunks != []
    ensures Encode(chunks, last, tail)
            == chunks[0].sizeLine + CRLF + (chunks[0].data + CRLF + Encode(chunks[1..], last, tail))
  {
  }

  lemma LiveRest(chunks: seq<Chunk>)
    requires chunks != [] && AllFramed(chunks)
    ensures chunks[0].data != "" && AllFramed(chunks[1..]) && |Skewed(chunks[0].data)| == |chunks[0].data|
    ensures SizeLineFor(chunks[0].sizeLine, |chunks[0].data|)
  {
    assert Framed(chunks[0]);
  }

  /** Behind a size line, a line break at the start of the data is skipped when it is in the same read. */
  lemma BehindSizeLine(data: string, more: string, r: string)
    requires data != "" && r <= data + CRLF + more
    ensures |Stripped(r)| == |r| - Skipped(data, |r|)
    ensures var all := if Skews(data, |r|) then Skewed(data) + more else data + CRLF + more;
            && Stripped(r) <= all && all[|Stripped(r)|..] == (data + CRLF + more)[|r|..]
  {
    var all := data + CRLF + more;
    if Skews(data, |r|) {
      assert r[..2] == all[..2] == data[..2];
      assert all == CRLF + (Skewed(data) + more);
      assert r == CRLF + r[2..];
    } else if |r| >= 2 {
      NoBreakAtStart(data, more, r);
    }
  }

  lemma {:induction false} ReadFromData(left: string, chunks: seq<Chunk>, r: string, last: string, tail: string)
    requires Live(InData(left, chunks)) && SizeLineFor(last, 0)
    requires r <= left + CRLF + Encode(chunks, last, tail)
    ensures ReadFrom(InData(left, chunks), r, |left|, last, tail)
    decreases |r|, 0
  {
    hide Decode, StolHex, Break, Stripped, After, Find, ReadOk, Advance, Marks;
    var stream := Encode(chunks, last, tail);
    if r == "" {
      ReadNothing(InData(left, chunks), |left|, last, tail);
    } else if |r| < |left| + 2 {
      CutInData(left, chunks, r, last, tail);
    } else {
      var r' := r[|left| + 2..];
      PrefixParts(left + CRLF, stream, r);
      DecodePayload(r, |left|);
      assert r[..|left|] == left && r[|left|..] == CRLF + r';
      BreakRead(r');
      AdvancePastData(left, chunks, |r|, last);
      ReadFromSize(chunks, r', 0, last, tail);
      ReadOkAfter(InData(left, chunks), Advance(AtSize(chunks), |r'|, last), Marks(AtSize(chunks), |r'|, last),
                  CRLF + r', Decode(r', 0), stream[|r'|..], last, tail);
    }
  }

  lemma {:induction false} ReadFromSkewed(left: string, chunks: seq<Chunk>, r: string, last: string, tail: string)
    requires Live(InSkewed(left, chunks)) && SizeLineFor(last, 0)
    requires r <= left + Encode(chunks, last, tail)
    ensures ReadFrom(InSkewed(left, chunks), r, |left|, last, tail)
    decreases |r|, 0
  {
    hide Decode, StolHex, Break, Stripped, After, Find, ReadOk, Advance, Marks;
    var stream := Encode(chunks, last, tail);
    if r == "" {
      ReadNothing(InSkewed(left, chunks), |left|, last, tail);
    } else if |r| < |left| {
      assert r == (left + stream)[..|r|] == left[..|r|];
      assert (left + stream)[|r|..] == left[|r|..] + stream;
      DecodeAllPayload(r, |left|);
      CutWithin(InSkewed(left, chunks), |r|, Decode(r, |left|), last, tail);
    } else {
      var r' := r[|left|..];
      PrefixParts(left, stream, r);
      DecodePayload(r, |left|);
      assert r[..|left|] == left;
      NoBreakBeforeEncoded(chunks, last, tail);
      NoBreakInPrefix(r', stream);
      AdvancePastSkewed(left, chunks, |r|, last);
      ReadFromSize(chunks, r', 0, last, tail);
      ReadOkAfter(InSkewed(left, chunks), Advance(AtSize(chunks), |r'|, last), Marks(AtSize(chunks), |r'|, last),
                  r', Decode(r', 0), stream[|r'|..], last, tail);
    }
  }

  lemma NoBreakInPrefix(r: string, s: string)
    requires r <= s && Stripped(s) == s
    ensures Stripped(r) == r
  {
    assert CRLF <= r ==> CRLF <= s;
  }

  lemma BreakRead(r: string)
    ensures Stripped(CRLF + r) == r
  {
    assert (CRLF + r)[2..] == r;
  }

  /** A read that ends before the line break behind the data is complete: within the data the
      decoder goes on, at its end it owes nothing, and a lone CR is taken for a size line. */
  lemma CutInData(left: string, chunks: seq<Chunk>, r: string, last: string, tail: string)
    requires Live(InData(left, chunks)) && left != "" && r != ""
    requires r <= left + CRLF + Encode(chunks, last, tail) && |r| < |left| + 2
    ensures ReadFrom(InData(left, chunks), r, |left|, last, tail)
  {
    hide Decode, Live, Encode, ReadOk, Advance, Marks, Delivered;
    PrefixOfData(left, Encode(chunks, last, tail), r);
    if |r| < |left| {
      DecodeAllPayload(r, |left|);
      CutWithin(InData(left, chunks), |r|, Decode(r, |left|), last, tail);
    } else if |r| == |left| {
      DecodeAllPayload(r, |left|);
      CutAtEnd(left, chunks, last, tail);
    } else {
      CutAfterCr(left, chunks, last, tail);
    }
  }

  lemma PrefixOfData(left: string, more: string, r: string)
    requires r <= left + CRLF + more && |r| < |left| + 2
    ensures |r| <= |left| ==> r == left[..|r|] && (left + CRLF + more)[|r|..] == left[|r|..] + CRLF + more
    ensures |r| == |left| ==> r == left
    ensures |r| > |left| ==> r == left + "\r"
  {
    var all := left + CRLF + more;
    assert r == all[..|r|];
    if |r| > |left| {
      assert all[|left|] == '\r' && r[|left|] == all[|left|];
    }
  }

  lemma AdvanceWithin(left: string, chunks: seq<Chunk>, n: nat, last: string)
    ensures n < |left| + 2 ==>
              && Advance(InData(left, chunks), n, last)
                 == (if n < |left| then InData(left[n..], chunks) else if n == |left| then AtBreak else Stuck)
              && Marks(InData(left, chunks), n, last) == []
    ensures n < |left| ==>
              && Advance(InSkewed(left, chunks), n, last) == InSkewed(left[n..], chunks)
              && Marks(InSkewed(left, chunks), n, last) == []
  {
  }

  lemma DecodeAllPayload(r: string, chunkSize: int)
    requires r != "" && |r| <= chunkSize
    ensures var s := Decode(r, chunkSize);
            s.status.NeedMore? && s.chunkSize == chunkSize - |r| && Delivered(s.segments) == r
  {
    hide Decode, Break, Stripped, After;
    DecodePayload(r, chunkSize);
    assert r[..|r|] == r && r[|r|..] == "";
    NothingStripped();
    DecodeStops("", chunkSize - |r|);
    var s := Scan([], "", chunkSize - |r|, NeedMore);
    DeliveredAfter(Payload(r), "", s);
    AfterKeeps([Payload(r)] + Break(""), s);
    assert Delivered([]) == "";
  }

  lemma CutWithin(p: Place, n: nat, s: Scan, last: string, tail: string)
    requires Live(p) && !p.AtSize? && n < |p.left|
    requires s.status.NeedMore? && s.chunkSize == |p.left| - n && Delivered(s.segments) == p.left[..n]
    ensures ReadOk(p, Advance(p, n, last), Marks(p, n, last), s, Remaining(p, last, tail)[n..], last, tail)
  {
    hide Delivered, Advance, Marks, Encode, Arrived, AllFramed, Marked;
    NothingMarked(p.chunks);
    AdvanceWithin(p.left, p.chunks, n, last);
    assert Arrived(p.chunks, []) == "" by { NothingArrived(p.chunks); }
    assert p.left[..n] + p.left[n..] == p.left;
    assert p.chunks[0..] == p.chunks;
    assert Remaining(p, last, tail)[n..] == Remaining(Advance(p, n, last), last, tail);
  }

  lemma NothingMarked(chunks: seq<Chunk>)
    ensures Marked(chunks, [])
  {
  }

  lemma NothingArrived(chunks: seq<Chunk>)
    ensures Arrived(chunks, []) == ""
  {
  }

  lemma CutAtEnd(left: string, chunks: seq<Chunk>, last: string, tail: string)
    requires var s := Decode(left, |left|); s.status.NeedMore? && s.chunkSize == 0
    ensures ReadFrom(InData(left, chunks), left, |left|, last, tail)
  {
    hide Decode, Advance, Marks, Encode, Remaining, Delivered, Arrived, Marked, Live;
    AdvanceWithin(left, chunks, |left|, last);
    BreakRemains(left, chunks, last, tail);
  }

  lemma BreakRemains(left: string, chunks: seq<Chunk>, last: string, tail: string)
    ensures var remaining := Remaining(InData(left, chunks), last, tail);
            |left| <= |remaining| && CRLF <= remaining[|left|..]
  {
    hide Encode;
    var stream := Encode(chunks, last, tail);
    assert (left + CRLF + stream)[|left|..] == CRLF + stream;
  }

  lemma CutAfterCr(left: string, chunks: seq<Chunk>, last: string, tail: string)
    requires left != ""
    ensures ReadFrom(InData(left, chunks), left + "\r", |left|, last, tail)
  {
    hide Decode, Break, Stripped, After, Advance, Marks, Encode;
    var r := left + "\r";
    AdvanceWithin(left, chunks, |r|, last);
    DecodePayload(r, |left|);
    assert r[..|left|] == left && r[|left|..] == "\r";
    LoneCrFails();
    AfterKeeps([Payload(left)] + Break("\r"), Decode("\r", 0));
  }

  lemma NothingStripped()
    ensures Stripped("") == ""
  {
  }

  lemma LoneCrFails()
    ensures Stripped("\r") == "\r" && Decode("\r", 0).status.SizeError?
  {
    hide Decode;
    assert !Contains("", CRLF);
    assert "\r" <= "" + CRLF + "";
    CutLineFails("", "", "\r", 0);
  }

  lemma AfterKeeps(first: seq<Segment>, s: Scan)
    ensures var t := After(first, s); t.status == s.status && t.chunkSize == s.chunkSize && t.rest == s.rest
  {
  }

  lemma NoBreakBeforeLine(line: string, n: nat, more: string)
    requires SizeLineFor(line, n)
    ensures Stripped(line + CRLF + more) == line + CRLF + more
  {
    hide StolHex;
    EmptyNumeralThrows();
    assert line != "";
    NoCrlfPrefix(line);
    NoBreakAtStart(line, more, line + CRLF + more);
  }

  lemma NoCrlfPrefix(line: string)
    requires !Contains(line, CRLF)
    ensures !(CRLF <= line)
  {
    assert !OccursAt(line, CRLF, 0);
    assert |line| >= 2 ==> line[0..2] == line[..2];
  }

  lemma NoBreakBeforeEncoded(chunks: seq<Chunk>, last: string, tail: string)
    requires AllFramed(chunks) && SizeLineFor(last, 0)
    ensures Stripped(Encode(chunks, last, tail)) == Encode(chunks, last, tail)
  {
    hide StolHex, Stripped;
    if chunks == [] {
      NoBreakBeforeLine(last, 0, tail);
    } else {
      var more := chunks[0].data + CRLF + Encode(chunks[1..], last, tail);
      NoBreakBeforeLine(chunks[0].sizeLine, |chunks[0].data|, more);
      assert Encode(chunks, last, tail) == chunks[0].sizeLine + CRLF + more;
    }
  }

  // ---------- Fragmentation ----------

  datatype Run = Run(deliveries: seq<string>, chunkSize: int, status: Status)

  function Fed(d: Run, r: string): Run {
    if !d.status.NeedMore? then d
    else
      var s := Decode(r, d.chunkSize);
      Run(d.deliveries + Deliveries(s.segments), s.chunkSize, s.status)
  }

  /** The place behind one more read. */
  function Moved(q: Place, r: string, last: string): Place {
    if Moving(q) then Advance(q, |r|, last)
    else if q.AtBreak? && r != "" then (if |r| == 1 then Stuck else Threw)
    else q
  }

  /** The decoder fed read by read; it stops at the first read that completes or fails. */
  function DecodeAll(parts: seq<string>, chunkSize: int): Run {
    if parts == [] then Run([], chunkSize, NeedMore)
    else
      Fed(DecodeAll(parts[..|parts| - 1], chunkSize), parts[|parts| - 1])
  }

  /** Where the cuts between the reads fall, by the grammar alone. */
  function Reach(p: Place, parts: seq<string>, last: string): Place {
    if parts == [] then p
    else Moved(Reach(p, parts[..|parts| - 1], last), parts[|parts| - 1], last)
  }

  /** For every chunk entered: whether its size line and the line break at the start of its data came
      in one read. */
  function MarksOf(p: Place, parts: seq<string>, last: string): seq<bool> {
    if parts == [] then []
    else
      var n := |parts| - 1;
      MarksOf(p, parts[..n], last) + Marks(Reach(p, parts[..n], last), |parts[n]|, last)
  }

  /** The decoder and the grammar agree after any number of reads. */
  ghost predicate Agrees(chunks: seq<Chunk>, q: Place, marks: seq<bool>, d: Run, remaining: string, last: string,
                         tail: string) {
    match q
    case Finished =>
      && d.status.Completed? && Marked(chunks, marks) && |marks| == |chunks|
      && Concat(d.deliveries) == Arrived(chunks, marks)
    case AtBreak => BreakPending(d.status, d.chunkSize, remaining)
    case Stuck => d.status.SizeError?
    case Threw => d.status.Throws?
    case _ =>
      && Live(q) && d.status.NeedMore? && Carried(q, d.chunkSize)
      && remaining == Remaining(q, last, tail)
      && Marked(chunks, marks) && q.chunks == chunks[|marks|..]
      && Concat(d.deliveries) + Head(q) == Arrived(chunks, marks)
  }

  /** A line break taken for a size line: alone its CR is an incomplete line, and whole an unreadable one. */
  lemma BreakFails(r: string, remaining: string)
    requires r != "" && CRLF <= remaining && r <= remaining
    ensures if |r| == 1 then Decode(r, 0).status.SizeError? else Decode(r, 0).status.Throws?
  {
    hide Decode, StolHex;
    assert remaining[..2] == CRLF;
    if |r| == 1 {
      assert r[0] == remaining[0] == remaining[..2][0] && r == "\r";
      LoneCrFails();
    } else {
      assert r[0..2] == CRLF;
      assert OccursAt(r, CRLF, 0);
      assert r[..0] == "";
      EmptyNumeralThrows();
      DecodeStops(r, 0);
    }
  }

  lemma {:induction false} ArrivedAppend(chunks: seq<Chunk>, a: seq<bool>, b: seq<bool>)
    requires |a| <= |chunks|
    ensures Arrived(chunks, a + b) == Arrived(chunks, a) + Arrived(chunks[|a|..], b)
  {
    if a == [] {
      assert a + b == b && chunks[0..] == chunks;
    } else {
      assert (a + b)[1..] == a[1..] + b && chunks[1..][|a| - 1..] == chunks[|a|..];
      ArrivedAppend(chunks[1..], a[1..], b);
    }
  }

  lemma MarkedAppend(chunks: seq<Chunk>, a: seq<bool>, b: seq<bool>)
    requires Marked(chunks, a) && Marked(chunks[|a|..], b)
    ensures Marked(chunks, a + b) && chunks[|a|..][|b|..] == chunks[|a + b|..]
  {
    assert forall i | |a| <= i < |a + b| :: (a + b)[i] == b[i - |a|] && chunks[i] == chunks[|a|..][i - |a|];
  }

  lemma LiveStep(chunks: seq<Chunk>, q: Place, a: seq<bool>, q': Place, b: seq<bool>, d: Run, s: Scan,
                 remaining: string, last: string, tail: string)
    requires Live(q) && Marked(chunks, a) && q.chunks == chunks[|a|..]
    requires Concat(d.deliveries) + Head(q) == Arrived(chunks, a)
    requires ReadOk(q, q', b, s, remaining, last, tail)
    ensures Agrees(chunks, q', a + b, Run(d.deliveries + Deliveries(s.segments), s.chunkSize, s.status),
                   remaining, last, tail)
  {
    hide AllFramed, Remaining, Deliveries, Arrived, Marked, Concat, Delivered;
    DeliveredMore(d.deliveries, s.segments);
    if Moving(q') || q'.Finished? {
      LengthOfMarks(chunks, a);
      ArrivedAppend(chunks, a, b);
      MarkedAppend(chunks, a, b);
      Regrouped(Concat(d.deliveries), Delivered(s.segments), Head(q'), Head(q), Arrived(q.chunks, b));
      if q'.Finished? {
        assert Delivered(s.segments) + Head(q') == Delivered(s.segments);
        assert Concat(d.deliveries) + Delivered(s.segments) + Head(q')
            == Concat(d.deliveries) + Delivered(s.segments);
      }
    }
  }

  lemma Regrouped(first: string, more: string, after: string, before: string, arrived: string)
    requires more + after == before + arrived
    ensures first + more + after == first + before + arrived
  {
    assert first + more + after == first + (more + after);
    assert first + before + arrived == first + (before + arrived);
  }

  lemma DeliveredMore(first: seq<string>, segments: seq<Segment>)
    ensures Concat(first + Deliveries(segments)) == Concat(first) + Delivered(segments)
  {
    ConcatAppend(first, Deliveries(segments));
  }

  lemma LengthOfMarks(chunks: seq<Chunk>, marks: seq<bool>)
    requires Marked(chunks, marks)
    ensures |marks| <= |chunks|
  {
  }

  lemma AgreesStep(chunks: seq<Chunk>, q: Place, a: seq<bool>, d: Run, r: string, remaining: string, last: string,
                   tail: string)
    requires Agrees(chunks, q, a, d, remaining, last, tail)
    requires SizeLineFor(last, 0) && r <= remaining
    ensures Agrees(chunks, Moved(q, r, last), a + Marks(q, |r|, last), Fed(d, r), remaining[|r|..], last, tail)
  {
    hide Decode, Advance, Encode, Arrived, Deliveries, ReadOk;
    if q.Finished? {
      assert a + [] == a;
    } else if q.AtBreak? {
      if r == "" {
        DecodeStops("", 0);
        assert remaining[0..] == remaining;
      } else {
        BreakFails(r, remaining);
      }
    } else if Moving(q) {
      hide Agrees, Marks;
      AgreesWhenLive(chunks, q, a, d, remaining, last, tail);
      match q {
        case AtSize(rest) => ReadFromSize(rest, r, d.chunkSize, last, tail);
        case InData(left, rest) => ReadFromData(left, rest, r, last, tail);
        case InSkewed(left, rest) => ReadFromSkewed(left, rest, r, last, tail);
      }
      LiveStep(chunks, q, a, Advance(q, |r|, last), Marks(q, |r|, last), d, Decode(r, d.chunkSize),
               remaining[|r|..], last, tail);
    }
  }

  lemma AgreesWhenLive(chunks: seq<Chunk>, q: Place, a: seq<bool>, d: Run, remaining: string, last: string,
                       tail: string)
    requires Agrees(chunks, q, a, d, remaining, last, tail) && Moving(q)
    ensures Live(q) && d.status.NeedMore? && Carried(q, d.chunkSize)
    ensures remaining == Remaining(q, last, tail) && Marked(chunks, a) && q.chunks == chunks[|a|..]
    ensures Concat(d.deliveries) + Head(q) == Arrived(chunks, a)
  {
  }

  lemma PrefixStep(a: string, r: string, stream: string)
    requires a + r <= stream
    ensures a <= stream && r <= stream[|a|..] && stream[|a|..][|r|..] == stream[|a + r|..]
  {
    assert stream[|a|..|a + r|] == r;
  }

  /** After any number of reads, whatever the chunks and the cuts: the decoder carries what the grammar
      says is left, and has delivered what arrives of the chunks entered. */
  lemma {:induction false} RunAgrees(chunks: seq<Chunk>, parts: seq<string>, chunkSize: int, last: string, tail: string)
    requires AllFramed(chunks) && SizeLineFor(last, 0) && chunkSize <= 0
    requires Concat(parts) <= Encode(chunks, last, tail)
    ensures Agrees(chunks, Reach(AtSize(chunks), parts, last), MarksOf(AtSize(chunks), parts, last),
                   DecodeAll(parts, chunkSize), Encode(chunks, last, tail)[|Concat(parts)|..], last, tail)
  {
    hide Decode, Advance, Marks, Encode, Arrived, Agrees;
    var stream := Encode(chunks, last, tail);
    if parts == [] {
      StartAgrees(chunks, chunkSize, last, tail);
      assert stream[0..] == stream;
    } else {
      var n := |parts| - 1;
      var init, r := parts[..n], parts[n];
      PrefixStep(Concat(init), r, stream);
      RunAgrees(chunks, init, chunkSize, last, tail);
      var q := Reach(AtSize(chunks), init, last);
      AgreesStep(chunks, q, MarksOf(AtSize(chunks), init, last), DecodeAll(init, chunkSize), r,
                 stream[|Concat(init)|..], last, tail);
    }
  }

  lemma StartAgrees(chunks: seq<Chunk>, chunkSize: int, last: string, tail: string)
    requires AllFramed(chunks) && chunkSize <= 0
    ensures Agrees(chunks, AtSize(chunks), [], Run([], chunkSize, NeedMore), Encode(chunks, last, tail), last, tail)
  {
    assert chunks[0..] == chunks;
  }

  lemma SomethingRemains(p: Place, last: string, tail: string)
    ensures Live(p) ==> Remaining(p, last, tail) != ""
  {
  }

  predicate OnlyBreaks(data: string) {
    data == "" || (CRLF <= data && OnlyBreaks(data[2..]))
  }

  /** Shifting a line break from the front to the back changes nothing exactly when there is nothing else. */
  lemma {:induction false} SkewExact(data: string)
    ensures Skewed(data) == data <==> !(CRLF <= data) || OnlyBreaks(data)
  {
    if CRLF <= data {
      var d := data[2..];
      assert data == CRLF + d;
      SkewExact(d);
      if |d| >= 2 {
        assert d + CRLF == data ==> d[..2] == (d + CRLF)[..2] == CRLF;
        assert d + CRLF == data && CRLF <= d ==> d[2..] + CRLF == (d + CRLF)[2..] == d;
        assert CRLF <= d && d[2..] + CRLF == d ==> d + CRLF == CRLF + (d[2..] + CRLF) == data;
      } else if |d| == 1 {
        assert (d + CRLF)[1] == '\r' && data[1] == '\n';
      }
    }
  }

  /** Every chunk whose data were entered skewed consists of line breaks only. */
  ghost predicate Harmless(chunks: seq<Chunk>, marks: seq<bool>) {
    forall i | 0 <= i < |marks| && i < |chunks| :: marks[i] ==> OnlyBreaks(chunks[i].data)
  }

  lemma {:induction false} ArrivedExact(chunks: seq<Chunk>, marks: seq<bool>)
    requires Marked(chunks, marks) && |marks| == |chunks|
    ensures |Arrived(chunks, marks)| == |DataOf(chunks)|
    ensures Arrived(chunks, marks) == DataOf(chunks) <==> Harmless(chunks, marks)
  {
    if chunks != [] {
      var c, rest := chunks[0], chunks[1..];
      assert forall i | 0 < i < |chunks| :: chunks[i] == rest[i - 1] && marks[i] == marks[1..][i - 1];
      assert forall i | 0 <= i < |rest| :: rest[i] == chunks[i + 1] && marks[1..][i] == marks[i + 1];
      ArrivedExact(rest, marks[1..]);
      SkewExact(c.data);
      SameLengthParts(Version(c.data, marks[0]), Arrived(rest, marks[1..]), c.data, DataOf(rest));
    }
  }

  lemma SameLengthParts(a: string, b: string, c: string, d: string)
    requires |a| == |c|
    ensures a + b == c + d <==> a == c && b == d
  {
    assert a + b == c + d ==> (a + b)[..|a|] == (c + d)[..|a|] && (a + b)[|a|..] == (c + d)[|a|..];
  }

  /** Chunked decoding under fragmentation, for every list of chunks and every cutting of the stream
      into reads. The decoder completes if and only if the machine of places finishes: no read ends inside
      a size line or its line break, and none between a chunk's data and the end of the line break behind
      them unless the chunk is entered skewed (module Cuts says so in byte offsets). And the data arrive
      whole if and only if, besides, every chunk entered skewed consists of line breaks only. */
  lemma DecodesExactly(chunks: seq<Chunk>, parts: seq<string>, chunkSize: int, last: string, tail: string)
    requires AllFramed(chunks) && SizeLineFor(last, 0) && chunkSize <= 0
    requires Concat(parts) == Encode(chunks, last, tail)
    ensures var d := DecodeAll(parts, chunkSize);
            var finished := Reach(AtSize(chunks), parts, last).Finished?;
            && (d.status.Completed? <==> finished)
            && (d.status.Completed? && Concat(d.deliveries) == DataOf(chunks)
                <==> finished && Harmless(chunks, MarksOf(AtSize(chunks), parts, last)))
  {
    hide Decode, Advance, Marks, Encode, DataOf, Arrived, DecodeAll, Reach, MarksOf, Harmless, Marked, Live;
    RunAgrees(chunks, parts, chunkSize, last, tail);
    var q := Reach(AtSize(chunks), parts, last);
    SomethingRemains(q, last, tail);
    assert Encode(chunks, last, tail)[|Concat(parts)|..] == "";
    if q.Finished? {
      ArrivedExact(chunks, MarksOf(AtSize(chunks), parts, last));
    }
  }

  /** When no chunk begins with a line break nothing is ever skewed. */
  lemma NothingSkewed(chunks: seq<Chunk>, parts: seq<string>, chunkSize: int, last: string, tail: string)
    requires AllFramed(chunks) && SizeLineFor(last, 0) && chunkSize <= 0
    requires Concat(parts) == Encode(chunks, last, tail)
    requires forall i | 0 <= i < |chunks| :: !(CRLF <= chunks[i].data)
    ensures Reach(AtSize(chunks), parts, last).Finished? ==> Harmless(chunks, MarksOf(AtSize(chunks), parts, last))
  {
    hide Decode, Advance, Marks, Encode, Arrived, DecodeAll, Reach, MarksOf, OnlyBreaks;
    RunAgrees(chunks, parts, chunkSize, last, tail);
  }

  /** Over an uncut stream every chunk that begins with a line break is entered skewed. */
  lemma {:induction false} WholeAdvance(chunks: seq<Chunk>, last: string, tail: string)
    ensures var n := |Encode(chunks, last, tail)|;
            && Advance(AtSize(chunks), n, last).Finished?
            && |Marks(AtSize(chunks), n, last)| == |chunks|
            && forall i | 0 <= i < |chunks| :: Marks(AtSize(chunks), n, last)[i] == (CRLF <= chunks[i].data)
  {
    var n := |Encode(chunks, last, tail)|;
    if chunks != [] {
      hide Advance, Marks;
      var data, rest := chunks[0].data, chunks[1..];
      var m := n - |chunks[0].sizeLine| - 2;
      EncodeStep(chunks, last, tail);
      WholeAdvance(rest, last, tail);
      AdvanceIntoData(chunks, n, last);
      AdvancePastData(data, rest, m, last);
      if Skews(data, m) {
        AdvancePastSkewed(Skewed(data), rest, m - 2, last);
      }
      assert forall i | 0 < i < |chunks| :: chunks[i] == rest[i - 1];
    }
  }

  /** An uncut stream is always read to its end, and its data arrive unchanged if and only if every
      chunk whose data begin with a line break consists of line breaks only. */
  lemma WholeStreamExact(chunks: seq<Chunk>, chunkSize: int, last: string, tail: string)
    requires AllFramed(chunks) && SizeLineFor(last, 0) && chunkSize <= 0
    ensures var s := Decode(Encode(chunks, last, tail), chunkSize);
            && s.status.Completed?
            && (Delivered(s.segments) == DataOf(chunks) <==>
                forall i | 0 <= i < |chunks| :: !(CRLF <= chunks[i].data) || OnlyBreaks(chunks[i].data))
  {
    hide Decode, Encode, DataOf, OnlyBreaks, Advance, Marks, Delivered, Concat, Reach, MarksOf, DecodeAll, SizeLineFor,
         AllFramed;
    var stream := Encode(chunks, last, tail);
    WholeAdvance(chunks, last, tail);
    OneRead(AtSize(chunks), stream, chunkSize, last);
    DecodesExactly(chunks, [stream], chunkSize, last, tail);
  }

  /** A body of one chunk, written out. */
  lemma OneChunk(line: string, data: string, last: string, tail: string)
    requires Standard(line, |data|) && 0 < |data| <= 9223372036854775807 && Standard(last, 0)
    requires !("\r\n" <= data)
    ensures var s := Decode(line + "\r\n" + data + "\r\n" + last + "\r\n" + tail, -1);
            s.status.Completed? && Delivered(s.segments) == data
  {
    hide Decode, Standard, SizeLineFor, OnlyBreaks, Delivered;
    var chunk := Chunk(line, data);
    StandardChunk(line, |data|);
    StandardChunk(last, 0);
    WholeStreamExact([chunk], -1, last, tail);
    assert [chunk][1..] == [];
    assert Encode([], last, tail) == last + CRLF + tail;
    assert Encode([chunk], last, tail) == line + "\r\n" + data + "\r\n" + last + "\r\n" + tail;
    assert DataOf([]) == "" && DataOf([chunk]) == data + "";
  }

  lemma OneRead(p: Place, stream: string, chunkSize: int, last: string)
    ensures var d, s := DecodeAll([stream], chunkSize), Decode(stream, chunkSize);
            d.status == s.status && Concat(d.deliveries) == Delivered(s.segments)
    ensures Concat([stream]) == stream
    ensures p.AtSize? ==> Reach(p, [stream], last) == Advance(p, |stream|, last)
    ensures MarksOf(p, [stream], last) == Marks(p, |stream|, last)
  {
    hide Decode, Deliveries, Advance, Marks;
    assert [stream][..0] == [] && Concat([stream]) == Concat([]) + stream;
    assert Reach(p, [], last) == p && MarksOf(p, [], last) == [];
    assert [] + Marks(p, |stream|, last) == Marks(p, |stream|, last);
    var s := Decode(stream, chunkSize);
    assert [] + Deliveries(s.segments) == Deliveries(s.segments);
  }
}
