/** parseResponseHeader: finding the end of the header, the status line, and the header map
    (section 3 of RFC 7230). */
module ResponseHeaders {
  import opened Text
  import opened Numbers
  import opened StringUtil

  type Headers = map<string, string>

  datatype ResponseHeader = ResponseHeader(headers: Headers, httpStatusCode: nat, reasonPhrase: string) {
    predicate IsNeedRedirect() {
      httpStatusCode == 301 || httpStatusCode == 302
    }
  }

  const EMPTY: ResponseHeader := ResponseHeader(map[], 0, "")

  /** Throws stands for an exception or an index out of bounds: the process does not survive it,
      because the callers are noexcept. */
  datatype ParseResult = NeedMore | Throws | Parsed(header: ResponseHeader, size: nat)

  /** `view.substr(pos, n)` for a `pos` within the view. */
  function Substr(s: string, pos: nat, n: nat): string
    requires pos <= |s|
  {
    if n < |s| - pos then s[pos..pos + n] else s[pos..]
  }

  /** HTTP-version SP status-code SP reason-phrase; the code is looked for at a fixed place. */
  function ParseStatus(statusView: string, r: ResponseHeader): Option<ResponseHeader> {
    match Find(statusView, "HTTP/", 0)
    case None => Some(r)
    case Some(versionPos) =>
      if |statusView| < 9 || |statusView| < versionPos + 13 then None
      else
        match Stoi(Substr(statusView, 9, 3))
        case None => None
        case Some(code) =>
          Some(ResponseHeader(r.headers["Version" := Substr(statusView, versionPos, 8)],
                              code % 0x1_0000, statusView[versionPos + 13..]))
  }

  /** The name and value stored for one line; None when the line is passed over. */
  function FieldOf(line: string): Option<(string, string)> {
    if line == "" || ':' !in line then None
    else
      var parts := Tokens(line, ": ");
      if |parts| == 2 then Some((RemovePrefix(parts[0], ' '), RemovePrefix(parts[1], ' '))) else None
  }

  function Store(m: Headers, line: string): Headers {
    match FieldOf(line) case None => m case Some(f) => m[f.0 := f.1]
  }

  function StoreAll(m: Headers, lines: seq<string>): Headers {
    if lines == [] then m else Store(StoreAll(m, lines[..|lines| - 1]), lines[|lines| - 1])
  }

  function ParseLines(lines: seq<string>, r: ResponseHeader): Option<ResponseHeader> {
    if lines == [] then None
    else
      match ParseStatus(lines[0], r)
      case None => None
      case Some(r1) => Some(r1.(headers := StoreAll(r1.headers, lines)))
  }

  function ParseHeader(data: string, r: ResponseHeader): ParseResult {
    match Find(data, HEADER_END, 0)
    case None => NeedMore
    case Some(p) =>
      match ParseLines(Tokens(data[..p], CRLF), r)
      case None => Throws
      case Some(h) => Parsed(h, p + 4)
  }

  method ParseResponseHeader(data: string, response: ResponseHeader) returns (result: ParseResult)
    ensures result == ParseHeader(data, response)
  {
    hide Find, Tokens;
    var headerEndPos := Find(data, HEADER_END, 0);
    if headerEndPos.None? {
      return NeedMore;
    }
    var headerView := data[..headerEndPos.value];
    var headerViews := Split(headerView, CRLF);
    if headerViews == [] {
      return Throws;
    }
    var status := ParseStatus(headerViews[0], response);
    if status.None? {
      return Throws;
    }
    var headers := status.value.headers;
    for i := 0 to |headerViews|
      invariant headers == StoreAll(status.value.headers, headerViews[..i])
    {
      hide ParseStatus, ParseLines;
      assert headerViews[..i + 1][..i] == headerViews[..i];
      var view := headerViews[i];
      if view != "" && ':' in view {
        var fieldValue := Split(view, ": ");
        if |fieldValue| == 2 {
          headers := headers[RemovePrefix(fieldValue[0], ' ') := RemovePrefix(fieldValue[1], ' ')];
        }
      }
    }
    assert headerViews[..|headerViews|] == headerViews;
    return Parsed(status.value.(headers := headers), headerEndPos.value + |HEADER_END|);
  }

  /** The status line of section 3.1.2 of RFC 7230: three characters of version and a code of three
      digits, each followed by a space, then the reason phrase, which may be empty. */
  lemma StatusRead(version: string, code: nat, reason: string, r: ResponseHeader)
    requires |version| == 3 && 100 <= code < 1000
    ensures ParseStatus("HTTP/" + version + " " + Numeral(code, 10) + " " + reason, r)
            == Some(ResponseHeader(r.headers["Version" := "HTTP/" + version], code, reason))
  {
    hide Find, Stoi;
    NumeralOfThree(code);
    var line := "HTTP/" + version + " " + Numeral(code, 10) + " " + reason;
    assert line[0..5] == "HTTP/";
    assert OccursAt(line, "HTTP/", 0);
    assert Substr(line, 9, 3) == Numeral(code, 10);
    assert Substr(line, 0, 8) == "HTTP/" + version;
    assert line[13..] == reason;
  }

  /** The status line as the code reads it: the version wherever "HTTP/" stands, the code always in the
      columns 9 to 11, and the rest behind the version as reason phrase; without "HTTP/" nothing is set. */
  lemma StatusExact(line: string, v: nat, code: int, r: ResponseHeader)
    requires Find(line, "HTTP/", 0) == Some(v) && |line| >= v + 13 && Stoi(line[9..12]) == Some(code)
    ensures ParseStatus(line, r)
            == Some(ResponseHeader(r.headers["Version" := line[v..v + 8]], code % 65536, line[v + 13..]))
  {
    hide Find, Stoi;
  }

  lemma NoStatus(line: string, r: ResponseHeader)
    ensures !Contains(line, "HTTP/") ==> ParseStatus(line, r) == Some(r)
  {
    hide Find;
    var p := Find(line, "HTTP/", 0);
    assert p.Some? ==> OccursAt(line, "HTTP/", p.value);
  }

  lemma NumeralOfThree(code: nat)
    requires 100 <= code < 1000
    ensures |Numeral(code, 10)| == 3 && Stoi(Numeral(code, 10)) == Some(code)
  {
    assert Numeral(code, 10) == Numeral(code / 10, 10) + [DigitChar(code % 10)];
    assert Numeral(code / 10, 10) == Numeral(code / 10 / 10, 10) + [DigitChar(code / 10 % 10)];
    NumeralValue(code, 10);
    ReadsNumeral(Numeral(code, 10), "", 10);
    assert Numeral(code, 10) + "" == Numeral(code, 10);
  }

  // ---------- The end of the header ----------

  ghost predicate Lines(lines: seq<string>) {
    |lines| > 0 && Free(lines, CRLF) && forall i | 0 <= i < |lines| :: lines[i] != ""
  }

  lemma FirstCrlf(line: string, rest: string, j: nat)
    requires !Contains(line, CRLF) && j < |line|
    ensures !OccursAt(line + CRLF + rest, CRLF, j)
  {
    CrlfBorderFree();
    FirstOccurrence(line, CRLF, rest);
  }

  lemma EndStartsWithCrlf(s: string, j: nat)
    ensures OccursAt(s, HEADER_END, j) ==> OccursAt(s, CRLF, j) && OccursAt(s, CRLF, j + 2)
  {
    if j + 4 <= |s| {
      assert s[j..j + 2] == s[j..j + 4][..2] && s[j + 2..j + 4] == s[j..j + 4][2..];
      assert HEADER_END[..2] == CRLF && HEADER_END[2..] == CRLF;
    }
  }

  lemma OccursShift(a: string, b: string, pat: string, j: nat)
    ensures OccursAt(a + b, pat, |a| + j) <==> OccursAt(b, pat, j)
  {
    if j + |pat| <= |b| {
      assert (a + b)[|a| + j..|a| + j + |pat|] == b[j..j + |pat|];
    }
  }

  lemma {:induction false} NoEarlierEnd(lines: seq<string>, rest: string, j: nat)
    requires Lines(lines) && j < |Join(lines, CRLF)|
    ensures !OccursAt(Join(lines, CRLF) + HEADER_END + rest, HEADER_END, j)
  {
    var line := lines[0];
    var s := Join(lines, CRLF) + HEADER_END + rest;
    EndStartsWithCrlf(s, j);
    if |lines| == 1 {
      assert s == line + CRLF + (CRLF + rest);
      FirstCrlf(line, CRLF + rest, j);
    } else {
      var tail := Join(lines[1..], CRLF) + HEADER_END + rest;
      assert s == line + CRLF + tail;
      if j < |line| {
        FirstCrlf(line, tail, j);
      } else if j == |line| {
        OccursShift(line + CRLF, tail, CRLF, 0);
        NoCrlfAtStart(lines[1..], rest);
      } else if j == |line| + 1 {
        assert s[j] == '\n';
        assert OccursAt(s, CRLF, j) ==> s[j..j + 2][0] == s[j];
      } else {
        OccursShift(line + CRLF, tail, HEADER_END, j - |line| - 2);
        NoEarlierEnd(lines[1..], rest, j - |line| - 2);
      }
    }
  }

  lemma NoCrlfAtStart(lines: seq<string>, rest: string)
    requires Lines(lines)
    ensures !OccursAt(Join(lines, CRLF) + HEADER_END + rest, CRLF, 0)
  {
    var s := Join(lines, CRLF) + HEADER_END + rest;
    if |lines| == 1 {
      assert s == lines[0] + CRLF + (CRLF + rest);
      FirstCrlf(lines[0], CRLF + rest, 0);
    } else {
      assert s == lines[0] + CRLF + (Join(lines[1..], CRLF) + HEADER_END + rest);
      FirstCrlf(lines[0], Join(lines[1..], CRLF) + HEADER_END + rest, 0);
    }
  }

  /** A block of non-empty lines is framed exactly, whatever follows it. */
  lemma BlockFound(lines: seq<string>, rest: string)
    requires Lines(lines)
    ensures Find(Join(lines, "\r\n") + "\r\n\r\n" + rest, "\r\n\r\n", 0) == Some(|Join(lines, "\r\n")|)
    ensures Tokens(Join(lines, "\r\n"), "\r\n") == lines
  {
    var block := Join(lines, CRLF);
    var s := block + HEADER_END + rest;
    assert s[|block|..|block| + 4] == HEADER_END;
    assert OccursAt(s, HEADER_END, |block|);
    forall j: nat | j < |block|
      ensures !OccursAt(s, HEADER_END, j)
    {
      NoEarlierEnd(lines, rest, j);
    }
    CrlfBorderFree();
    SplitUndoesJoin(lines, CRLF);
  }

  /** What was parsed does not depend on how much of the stream has arrived behind the header. */
  lemma ParseIgnoresTail(data: string, more: string, r: ResponseHeader)
    requires !ParseHeader(data, r).NeedMore?
    ensures ParseHeader(data + more, r) == ParseHeader(data, r)
  {
    hide Find, ParseLines, Tokens;
    var p := Find(data, HEADER_END, 0).value;
    var s := data + more;
    assert s[p..p + 4] == data[p..p + 4] && s[..p] == data[..p];
    assert OccursAt(s, HEADER_END, p);
    forall j: nat | j < p
      ensures !OccursAt(s, HEADER_END, j)
    {
      assert !OccursAt(data, HEADER_END, j);
      assert s[j..j + 4] == data[j..j + 4];
    }
  }

  /** Before the blank line has arrived completely nothing is parsed. */
  lemma ParseWaits(data: string, k: nat, r: ResponseHeader)
    requires k <= |data|
    requires ParseHeader(data, r).Parsed? && k < ParseHeader(data, r).size
    ensures ParseHeader(data[..k], r).NeedMore?
  {
    hide Find, ParseLines, Tokens;
    forall j: nat
      ensures !OccursAt(data[..k], HEADER_END, j)
    {
      if j + 4 <= k {
        assert !OccursAt(data, HEADER_END, j);
        assert data[..k][j..j + 4] == data[j..j + 4];
      }
    }
  }

  // ---------- What the parser does not survive ----------

  function TrimBreaks(s: string): string {
    if CRLF <= s then TrimBreaks(s[2..]) else s
  }

  function UpToBreak(s: string): string {
    match Find(s, CRLF, 0) case None => s case Some(p) => s[..p]
  }

  lemma {:induction false} FirstToken(s: string)
    ensures var t := TrimBreaks(s);
            if t == "" then Tokens(s, CRLF) == [] else Tokens(s, CRLF) != [] && Tokens(s, CRLF)[0] == UpToBreak(t)
    decreases |s|
  {
    hide Find, Tokens;
    TokensUnfold(s, CRLF);
    if CRLF <= s {
      assert s[0..2] == s[..2] && OccursAt(s, CRLF, 0);
      FirstToken(s[2..]);
      assert [] + Tokens(s[2..], CRLF) == Tokens(s[2..], CRLF);
    } else if Find(s, CRLF, 0).Some? {
      assert s[0..2] == s[..2];
    }
  }

  /** Spaces, a sign, and then a digit. */
  predicate BeginsWithNumber(s: string) {
    var t := AfterSign(SkipSpaces(s));
    t != "" && IsDigit(t[0], 10)
  }

  lemma ShortNumber(s: string)
    requires |s| <= 3
    ensures Stoi(s).Some? <==> BeginsWithNumber(s)
  {
    var t := SkipSpaces(s);
    SkippedIsShorter(s);
    var digits := DigitRun(AfterSign(t), 10);
    RunIsShorter(AfterSign(t));
    ValueBelow(digits);
  }

  lemma {:induction false} SkippedIsShorter(s: string)
    ensures |SkipSpaces(s)| <= |s|
  {
    if s != "" && IsSpace(s[0]) {
      SkippedIsShorter(s[1..]);
    }
  }

  lemma {:induction false} RunIsShorter(s: string)
    ensures |DigitRun(s, 10)| <= |s| && AllDigits(DigitRun(s, 10), 10)
  {
    if s != "" && IsDigit(s[0], 10) {
      RunIsShorter(s[1..]);
    }
  }

  lemma {:induction false} ValueBelow(digits: string)
    requires AllDigits(digits, 10) && |digits| <= 3
    ensures 0 <= Value(digits, 10) < [1, 10, 100, 1000][|digits|]
  {
    if digits != "" {
      var n := |digits| - 1;
      assert forall i | 0 <= i < n :: digits[..n][i] == digits[i];
      ValueBelow(digits[..n]);
      assert 0 <= DigitOf(digits[n]) < 10 by {
        assert IsDigit(digits[n], 10);
      }
    }
  }

  /** The header on which the process dies: nothing but line breaks, or a status line that ends before
      the place of the reason phrase, or one with no number at the place of the code. */
  lemma ThrowsExact(data: string, r: ResponseHeader)
    ensures ParseHeader(data, r).Throws? <==>
              var end := Find(data, HEADER_END, 0);
              && end.Some?
              && var block := TrimBreaks(data[..end.value]);
                 (block == "" ||
                  (var line := UpToBreak(block);
                   var version := Find(line, "HTTP/", 0);
                   version.Some? && (|line| < version.value + 13 || !BeginsWithNumber(line[9..12]))))
  {
    hide Find, Tokens, TrimBreaks, UpToBreak, BeginsWithNumber, Stoi;
    var end := Find(data, HEADER_END, 0);
    if end.Some? {
      var block := TrimBreaks(data[..end.value]);
      FirstToken(data[..end.value]);
      if block != "" {
        var line := UpToBreak(block);
        if |line| >= 12 {
          ShortNumber(line[9..12]);
          assert |line| == 12 ==> line[9..] == line[9..12];
        }
      }
    }
  }

  /** The space behind the status code may not be left out, even without a reason phrase. */
  lemma CodeAtTheEndThrows(version: string, code: string, more: string, r: ResponseHeader)
    requires |version| == 3 && |code| == 3 && OneLine(version) && OneLine(code)
    ensures ParseHeader("HTTP/" + version + " " + code + HEADER_END + more, r).Throws?
  {
    hide Find;
    var line := "HTTP/" + version + " " + code;
    assert line[0..5] == "HTTP/" && OccursAt(line, "HTTP/", 0);
    OneLineHasNoCrlf(line);
    var lines := [line];
    assert Join(lines, CRLF) == line;
    BlockFound(lines, more);
    assert (line + HEADER_END + more)[..|line|] == line;
  }

  // ---------- The header map ----------

  function HeaderLine(name: string, value: string): string {
    name + ": " + value
  }

  function HeaderLines(m: Headers, order: seq<string>): (r: seq<string>)
    requires forall i | 0 <= i < |order| :: order[i] in m
    ensures |r| == |order|
  {
    seq(|order|, i requires 0 <= i < |order| => HeaderLine(order[i], m[order[i]]))
  }

  lemma SeparatorBorderFree()
    ensures BorderFree(": ")
  {
    assert ": "[..1] == ":" && ": "[1..] == " ";
  }

  /** Exactly these fields come back as they were printed. */
  ghost predicate Storable(name: string, value: string) {
    && name != "" && !Contains(name, ": ") && name[0] != ' '
    && value != "" && !Contains(value, ": ") && value[0] != ' '
  }

  lemma StorableComesBack(name: string, value: string)
    requires Storable(name, value)
    ensures FieldOf(HeaderLine(name, value)) == Some((name, value))
  {
    var line := HeaderLine(name, value);
    var ps := [name, value];
    assert Join(ps, ": ") == line by { assert ps[1..] == [value]; }
    SeparatorBorderFree();
    SplitUndoesJoin(ps, ": ");
    assert line[|name|] == ':';
  }

  lemma TokensOfPrinted(name: string, value: string)
    requires !Contains(name, ": ")
    ensures Tokens(HeaderLine(name, value), ": ") == Kept(name) + Tokens(value, ": ")
  {
    var line := HeaderLine(name, value);
    SeparatorBorderFree();
    FirstOccurrence(name, ": ", value);
    TokensUnfold(line, ": ");
    assert line[..|name|] == name && line[|name| + 2..] == value;
  }

  lemma TwoTokensAreShorter(s: string)
    requires |Tokens(s, ": ")| == 2
    ensures |Tokens(s, ": ")[1]| < |s|
  {
    var ps := Pieces(s, ": ");
    JoinPieces(s, ": ");
    TokensAreShorter(ps, ": ");
  }

  /** A field comes back from its printed line if and only if it is storable: the code drops a value
      that contains ": ", empties one that begins with a space, and skips an empty name or value. */
  lemma FieldExact(name: string, value: string)
    ensures FieldOf(name + ": " + value) == Some((name, value)) <==> Storable(name, value)
  {
    hide Tokens, Find, Pieces;
    if Storable(name, value) {
      StorableComesBack(name, value);
    }
    var line := HeaderLine(name, value);
    if FieldOf(line) == Some((name, value)) {
      SeparatorBorderFree();
      JoinPieces(line, ": ");
      TokensExact(line, ": ", Pieces(line, ": "));
      var parts := Tokens(line, ": ");
      if name == "" {
        TokensOfPrinted(name, value);
        TwoTokensAreShorter(value);
        assert false;
      } else if value == "" {
        TokensOfPrinted(name, value);
        EmptyHasNoTokens();
        assert false;
      }
    }
  }

  lemma TwoTokens(first: string, second: string)
    requires first != "" && second != "" && !Contains(first, ": ") && !Contains(second, ": ")
    ensures Tokens(first + ": " + second, ": ") == [first, second]
  {
    var ps := [first, second];
    assert Join(ps, ": ") == first + ": " + second by { assert ps[1..] == [second]; }
    SeparatorBorderFree();
    SplitUndoesJoin(ps, ": ");
  }

  /** What becomes of the other fields: a name or a value that begins with a space is emptied, and a line
      with a second ": " in it is passed over. */
  lemma FieldLost(name: string, value: string, more: string)
    requires name != "" && value != "" && !Contains(name, ": ") && !Contains(value, ": ")
    ensures FieldOf(name + ": " + value)
            == Some((if name[0] == ' ' then "" else name, if value[0] == ' ' then "" else value))
    ensures more != "" && !Contains(more, ": ") ==> FieldOf(name + ": " + value + ": " + more) == None
  {
    hide Tokens, Find;
    TwoTokens(name, value);
    var line := name + ": " + value;
    assert line[|name|] == ':';
    if more != "" && !Contains(more, ": ") {
      var ps := [name, value, more];
      assert ps[1..] == [value, more] && [value, more][1..] == [more];
      JoinCons(value, [more], ": ");
      JoinCons(name, [value, more], ": ");
      assert [value] + [more] == [value, more] && [name] + [value, more] == ps;
      assert name + ": " + (value + ": " + more) == line + ": " + more;
      SeparatorBorderFree();
      SplitUndoesJoin(ps, ": ");
    }
  }

  /** Of a line without a ':' nothing is kept. */
  lemma NoColonNoField(line: string)
    ensures ':' !in line ==> FieldOf(line) == None
  {
    hide Tokens;
  }

  lemma EmptyHasNoTokens()
    ensures Tokens("", ": ") == []
  {
    assert Pieces("", ": ") == [""];
  }

  function Pick(m: Headers, keys: seq<string>): Headers
    requires forall i | 0 <= i < |keys| :: keys[i] in m
  {
    map k | k in keys :: m[k]
  }

  lemma PickStep(m: Headers, keys: seq<string>, k: string)
    requires k in m && forall i | 0 <= i < |keys| :: keys[i] in m
    ensures Pick(m, keys + [k]) == Pick(m, keys)[k := m[k]]
  {
  }

  lemma {:induction false} StoreEntries(base: Headers, status: string, m: Headers, order: seq<string>, n: nat)
    requires forall i | 0 <= i < |order| :: order[i] in m && Storable(order[i], m[order[i]])
    requires n <= |order|
    requires ':' !in status
    ensures StoreAll(base, [status] + HeaderLines(m, order)[..n])
            == base + Pick(m, order[..n])
  {
    hide FieldOf, Storable, Pick, StoreAll, HeaderLines;
    if n == 0 {
      assert [status] + HeaderLines(m, order)[..0] == [] + [status];
      StoreAllStep(base, [], status);
      StatusStoresNothing(base, status);
      PickNothing(m, order);
    } else {
      var k := order[n - 1];
      StoreEntries(base, status, m, order, n - 1);
      StorableComesBack(k, m[k]);
      LinesStep(m, order, n);
      StoreAllStep(base, [status] + HeaderLines(m, order)[..n - 1], HeaderLine(k, m[k]));
      PickStep(m, order[..n - 1], k);
      assert order[..n] == order[..n - 1] + [k];
      assert [status] + HeaderLines(m, order)[..n]
          == [status] + HeaderLines(m, order)[..n - 1] + [HeaderLine(k, m[k])];
    }
  }

  lemma StoreAllStep(m: Headers, lines: seq<string>, line: string)
    ensures StoreAll(m, lines + [line]) == Store(StoreAll(m, lines), line)
    ensures StoreAll(m, []) == m
  {
    assert (lines + [line])[..|lines|] == lines;
  }

  lemma LinesStep(m: Headers, order: seq<string>, n: nat)
    requires 0 < n <= |order| && forall i | 0 <= i < |order| :: order[i] in m
    ensures HeaderLines(m, order)[..n]
            == HeaderLines(m, order)[..n - 1] + [HeaderLine(order[n - 1], m[order[n - 1]])]
  {
  }

  lemma PickNothing(m: Headers, order: seq<string>)
    requires forall i | 0 <= i < |order| :: order[i] in m
    ensures Pick(m, order[..0]) == map[]
  {
  }

  lemma StatusStoresNothing(base: Headers, status: string)
    requires ':' !in status
    ensures Store(base, status) == base
  {
  }

  /** Header map round trip: any map of storable fields whose printed lines carry no line break,
      printed in any order behind a status line free of ':', is parsed back, over the entry Version. */
  lemma HeaderMapRoundTrip(status: string, r: ResponseHeader, m: Headers, order: seq<string>, rest: string)
    requires forall k | k in m :: Storable(k, m[k]) && !Contains(HeaderLine(k, m[k]), CRLF)
    requires (set k | k in order) == m.Keys
    requires status != "" && ':' !in status && !Contains(status, CRLF)
    requires ParseStatus(status, r).Some?
    ensures forall i | 0 <= i < |order| :: order[i] in m
    ensures var block := Join([status] + HeaderLines(m, order), CRLF);
            var base := ParseStatus(status, r).value;
            ParseHeader(block + HEADER_END + rest, r)
            == Parsed(base.(headers := base.headers + m), |block| + 4)
  {
    hide Storable, StoreAll, Tokens, Find, Join, ParseStatus;
    forall i | 0 <= i < |order|
      ensures order[i] in m
    {
      assert order[i] in (set k | k in order);
    }
    var lines := [status] + HeaderLines(m, order);
    forall i | 0 <= i < |lines|
      ensures !Contains(lines[i], CRLF) && lines[i] != ""
    {
      if i > 0 {
        assert lines[i] == HeaderLine(order[i - 1], m[order[i - 1]]);
      }
    }
    BlockFound(lines, rest);
    var base := ParseStatus(status, r).value;
    StoreEntries(base.headers, status, m, order, |order|);
    assert HeaderLines(m, order)[..|order|] == HeaderLines(m, order);
    assert order[..|order|] == order;
    assert Pick(m, order) == m by {
      assert forall k :: k in order <==> k in (set k | k in order);
    }
    var block := Join(lines, CRLF);
    assert (block + HEADER_END + rest)[..|block|] == block;
  }
}
