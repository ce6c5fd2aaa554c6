/** encode::htmlEncode: printing a request, and the framing that a reader recovers from it. */
module RequestEncoder {
  import opened Text
  import opened Numbers
  import opened StringUtil
  import opened ResponseHeaders
  import opened Urls
  import Base64

  /** kMethodNameArray, indexed by HttpMethodType. */
  datatype HttpMethodType = UnknownMethod | Get | Post | Put | Patch | Delete | Options

  function MethodName(m: HttpMethodType): string {
    match m
    case UnknownMethod => "Unknown"
    case Get => "GET"
    case Post => "POST"
    case Put => "PUT"
    case Patch => "PATCH"
    case Delete => "DELETE"
    case Options => "OPTIONS"
  }

  /** The user's description of a request; encoding it adds to `headers`. */
  class RequestInfo {
    const isAllowRedirect: bool
    const url: string
    const methodType: HttpMethodType
    const body: string
    const timeout: int
    var headers: Headers

    constructor (isAllowRedirect: bool, url: string, methodType: HttpMethodType, body: string, timeout: int,
                 headers: Headers)
      ensures this.isAllowRedirect == isAllowRedirect && this.url == url && this.methodType == methodType
      ensures this.body == body && this.timeout == timeout && this.headers == headers
    {
      this.isAllowRedirect, this.url, this.methodType, this.body := isAllowRedirect, url, methodType, body;
      this.timeout, this.headers := timeout, headers;
    }

    predicate BodyEmpty() {
      body == ""
    }
  }

  /** The bytes of a string, as `unsigned char`. */
  function Octets(s: string): seq<Base64.byte> {
    seq(|s|, i requires 0 <= i < |s| => (s[i] as int % 256) as Base64.byte)
  }

  function Credentials(userInfo: string): string {
    "Basic " + Base64.Groups(Octets(userInfo))
  }

  /** The headers that are printed. */
  function Prepared(headers: Headers, body: string, url: Parts): Headers {
    var h1 := if body == "" then headers else headers["Content-Length" := Numeral(|body|, 10)];
    var h2 := h1["Host" := url.host];
    if "Authorization" !in h2 && url.userInfo != "" then h2["Authorization" := Credentials(url.userInfo)] else h2
  }

  function RequestLine(m: HttpMethodType, url: Parts): string {
    MethodName(m) + " " + url.path + (if url.query == "" then "" else "?" + url.query) + " HTTP/1.1"
  }

  /** What is sent: the user's own fields, as they are unless it is Host or, with a body, Content-Length,
      and besides them these and no others. */
  lemma PreparedExact(headers: Headers, body: string, url: Parts)
    ensures var h := Prepared(headers, body, url);
            && h.Keys == headers.Keys + {"Host"} + (if body == "" then {} else {"Content-Length"})
                         + (if url.userInfo == "" then {} else {"Authorization"})
            && (forall k | k in headers && k != "Host" && (k != "Content-Length" || body == "") :: h[k] == headers[k])
            && h["Host"] == url.host
            && (body != "" ==> h["Content-Length"] == Numeral(|body|, 10))
            && ("Authorization" !in headers && url.userInfo != "" ==>
                h["Authorization"] == "Basic " + Base64.Groups(Octets(url.userInfo)))
  {
    hide Numeral, Base64.Groups, Octets;
    NamesDiffer();
    Added(headers, "Content-Length", "Host", "Authorization", Numeral(|body|, 10), url.host,
          Credentials(url.userInfo), body != "", url.userInfo != "");
  }

  /** Adding three fields to a map, the last one only when it is not there. */
  lemma Added(headers: Headers, length: string, host: string, authorization: string, l: string, o: string, a: string,
              hasBody: bool, hasUser: bool)
    requires length != host && length != authorization && host != authorization
    ensures var h1 := if hasBody then headers[length := l] else headers;
            var h2 := h1[host := o];
            var h := if authorization !in h2 && hasUser then h2[authorization := a] else h2;
            && h.Keys == headers.Keys + {host} + (if hasBody then {length} else {})
                         + (if hasUser then {authorization} else {})
            && (forall k | k in headers && k != host && (k != length || !hasBody) :: h[k] == headers[k])
            && h[host] == o && (hasBody ==> h[length] == l)
            && (authorization !in headers && hasUser ==> h[authorization] == a)
  {
  }

  lemma CredentialsAre(userInfo: string)
    ensures Credentials(userInfo) == "Basic " + Base64.Groups(Octets(userInfo))
  {
  }

  lemma NamesDiffer()
    ensures "Host" != "Content-Length" && "Host" != "Authorization" && "Content-Length" != "Authorization"
  {
    assert "Host"[0] != "Content-Length"[0] && "Host"[0] != "Authorization"[0];
    assert "Content-Length"[0] != "Authorization"[0];
  }

  /** The request line: method, path with query, and version. */
  lemma RequestLineExact(m: HttpMethodType, url: Parts)
    ensures var target := url.path + if url.query == "" then "" else "?" + url.query;
            RequestLine(m, url) == match m
                                   case UnknownMethod => "Unknown " + target + " HTTP/1.1"
                                   case Get => "GET " + target + " HTTP/1.1"
                                   case Post => "POST " + target + " HTTP/1.1"
                                   case Put => "PUT " + target + " HTTP/1.1"
                                   case Patch => "PATCH " + target + " HTTP/1.1"
                                   case Delete => "DELETE " + target + " HTTP/1.1"
                                   case Options => "OPTIONS " + target + " HTTP/1.1"
  {
    assert forall token: string ::
        token + " " + url.path + (if url.query == "" then "" else "?" + url.query) + " HTTP/1.1"
        == token + " " + (url.path + if url.query == "" then "" else "?" + url.query) + " HTTP/1.1";
    match m
    case UnknownMethod => assert "Unknown" + " " == "Unknown ";
    case Get => assert "GET" + " " == "GET ";
    case Post => assert "POST" + " " == "POST ";
    case Put => assert "PUT" + " " == "PUT ";
    case Patch => assert "PATCH" + " " == "PATCH ";
    case Delete => assert "DELETE" + " " == "DELETE ";
    case Options => assert "OPTIONS" + " " == "OPTIONS ";
  }

  /** The bytes of the user info, one for one. */
  lemma OctetsExact(s: string)
    ensures |Octets(s)| == |s| && forall i | 0 <= i < |s| :: Octets(s)[i] as int == s[i] as int % 256
  {
  }

  /** Every line with its line break. */
  function Broken(lines: seq<string>): string {
    if lines == [] then "" else Broken(lines[..|lines| - 1]) + lines[|lines| - 1] + CRLF
  }

  /** Every key once, in some order. */
  ghost predicate Enumerates(order: seq<string>, m: Headers) {
    (forall i | 0 <= i < |order| :: order[i] in m) && (set k | k in order) == m.Keys && |order| == |m.Keys|
  }

  function Printed(line: string, fields: seq<string>, body: string): string {
    line + CRLF + Broken(fields) + (if body == "" then "" else CRLF + body) + CRLF
  }

  lemma PrintedBegins(line: string, fields: seq<string>, body: string)
    ensures line + CRLF <= Printed(line, fields, body)
  {
    hide Broken;
    var rest := Broken(fields) + (if body == "" then "" else CRLF + body) + CRLF;
    assert Printed(line, fields, body) == line + CRLF + rest;
  }

  lemma {:induction false} BrokenHolds(lines: seq<string>, j: nat) returns (a: string, b: string)
    requires j < |lines|
    ensures Broken(lines) == a + (lines[j] + CRLF) + b
  {
    var n := |lines| - 1;
    if j == n {
      a, b := Broken(lines[..n]), "";
      assert a + lines[j] + CRLF == a + (lines[j] + CRLF) + "";
    } else {
      var rest;
      a, rest := BrokenHolds(lines[..n], j);
      b := rest + lines[n] + CRLF;
      assert a + (lines[j] + CRLF) + rest + lines[n] + CRLF == a + (lines[j] + CRLF) + b;
    }
  }

  /** Every header's line is in the printed request. */
  lemma PrintedHolds(line: string, m: Headers, order: seq<string>, body: string, k: string)
    requires Enumerates(order, m) && k in m
    ensures Contains(Printed(line, HeaderLines(m, order), body), HeaderLine(k, m[k]) + CRLF)
  {
    hide Broken;
    assert k in (set x | x in order);
    var j :| 0 <= j < |order| && order[j] == k;
    var field := HeaderLine(k, m[k]) + CRLF;
    var a, b := BrokenHolds(HeaderLines(m, order), j);
    var text := Printed(line, HeaderLines(m, order), body);
    var front := line + CRLF + a;
    var tail := b + (if body == "" then "" else CRLF + body) + CRLF;
    assert text == front + field + tail;
    assert OccursAt(text, field, |front|);
  }

  lemma EnumeratesMore(order: seq<string>, k: string)
    ensures (set x | x in order + [k]) == (set x | x in order) + {k}
  {
  }

  lemma BrokenStep(m: Headers, order: seq<string>, k: string)
    requires k in m && forall i | 0 <= i < |order| :: order[i] in m
    ensures Broken(HeaderLines(m, order + [k])) == Broken(HeaderLines(m, order)) + HeaderLine(k, m[k]) + CRLF
  {
    var lines := HeaderLines(m, order + [k]);
    assert lines[..|lines| - 1] == HeaderLines(m, order);
  }

  /** The first half of `htmlEncode`: the fields added to the user's headers. */
  method AddHeaders(info: RequestInfo, url: Url)
    modifies info`headers
    ensures info.headers == Prepared(old(info.headers), info.body, url.Fields())
  {
    hide Base64.Groups, Numeral;
    if !info.BodyEmpty() {
      info.headers := info.headers["Content-Length" := Numeral(|info.body|, 10)];
    }
    info.headers := info.headers["Host" := url.host];
    if "Authorization" !in info.headers && url.userInfo != "" {
      var encoded := Base64.Base64Encode(Octets(url.userInfo));
      info.headers := info.headers["Authorization" := "Basic " + encoded];
    }
  }

  /** The map is printed in whatever order it is iterated. */
  method PrintHeaders(headers: Headers) returns (oss: string, ghost order: seq<string>)
    ensures Enumerates(order, headers)
    ensures oss == Broken(HeaderLines(headers, order))
  {
    oss := "";
    order := [];
    var left := headers.Keys;
    while left != {}
      invariant left <= headers.Keys
      invariant (forall i | 0 <= i < |order| :: order[i] in headers) && (set k | k in order) == headers.Keys - left
      invariant |order| + |left| == |headers.Keys|
      invariant oss == Broken(HeaderLines(headers, order))
      decreases |left|
    {
      hide Broken;
      var k :| k in left;
      EnumeratesMore(order, k);
      BrokenStep(headers, order, k);
      oss := oss + (k + ": " + headers[k]) + CRLF;
      order := order + [k];
      left := left - {k};
    }
  }

  method HtmlEncode(info: RequestInfo, url: Url) returns (oss: string, ghost order: seq<string>)
    modifies info`headers
    ensures info.headers == Prepared(old(info.headers), info.body, url.Fields())
    ensures Enumerates(order, info.headers)
    ensures oss == Printed(RequestLine(info.methodType, url.Fields()), HeaderLines(info.headers, order), info.body)
  {
    hide Prepared, Enumerates, Broken, HeaderLines, MethodName;
    AddHeaders(info, url);
    oss := MethodName(info.methodType) + " " + url.path
    + (if url.query == "" then "" else "?" + url.query) + " HTTP/1.1";
    var fields;
    fields, order := PrintHeaders(info.headers);
    oss := oss + CRLF + fields;
    if !info.BodyEmpty() {
      oss := oss + (CRLF + info.body);
    }
    oss := oss + CRLF;
  }

  // ---------- Reading it back ----------

  /** The value of the first line that begins with `name` and ": ". */
  function FieldValue(lines: seq<string>, name: string): Option<string> {
    if lines == [] then None
    else if name + ": " <= lines[0] then Some(lines[0][|name| + 2..])
    else FieldValue(lines[1..], name)
  }

  datatype Message = Message(requestLine: string, fields: seq<string>, body: string)

  /** A server's view: lines up to the first blank line, then as many bytes as Content-Length says. */
  function Reframe(text: string): Option<Message> {
    match Find(text, HEADER_END, 0)
    case None => None
    case Some(p) =>
      var lines := Tokens(text[..p], CRLF);
      if lines == [] then None
      else
        var rest := text[p + 4..];
        match FieldValue(lines[1..], "Content-Length")
        case None => Some(Message(lines[0], lines[1..], ""))
        case Some(v) =>
          match Stoll(v)
          case None => None
          case Some(n) => if 0 <= n <= |rest| then Some(Message(lines[0], lines[1..], rest[..n])) else None
  }

  lemma {:induction false} BrokenIsJoin(line: string, fields: seq<string>)
    ensures line + CRLF + Broken(fields) == Join([line] + fields, CRLF) + CRLF
    decreases |fields|
  {
    if fields == [] {
      assert [line] + fields == [line];
    } else {
      var n := |fields| - 1;
      BrokenIsJoin(line, fields[..n]);
      JoinSnoc([line] + fields[..n], fields[n]);
      assert [line] + fields[..n] + [fields[n]] == [line] + fields;
    }
  }

  lemma {:induction false} JoinSnoc(ps: seq<string>, last: string)
    requires |ps| > 0
    ensures Join(ps + [last], CRLF) == Join(ps, CRLF) + CRLF + last
  {
    if |ps| == 1 {
      assert (ps + [last])[1..] == [last];
    } else {
      assert (ps + [last])[1..] == ps[1..] + [last];
      JoinSnoc(ps[1..], last);
    }
  }

  const LENGTH: string := "Content-Length"

  /** Fields that stay on one line, none of which can be taken for a Content-Length that it is not. */
  ghost predicate Printable(m: Headers) {
    forall k | k in m :: OneLine(k) && OneLine(m[k]) && (k != LENGTH ==> !(LENGTH + ": " <= HeaderLine(k, m[k])))
  }

  /** Names without a ':' are enough. */
  lemma ColonFreeIsPrintable(m: Headers)
    requires forall k | k in m :: ':' !in k && OneLine(k) && OneLine(m[k])
    ensures Printable(m)
  {
    forall k | k in m && k != LENGTH
      ensures !(LENGTH + ": " <= HeaderLine(k, m[k]))
    {
      NameIsPrefix(LENGTH, k, m[k]);
    }
  }

  lemma NameIsPrefix(name: string, k: string, v: string)
    requires ':' !in name && ':' !in k
    ensures name + ": " <= HeaderLine(k, v) <==> name == k
  {
    hide IndexOf;
    var line := HeaderLine(k, v);
    assert line == k + [':'] + (" " + v);
    FirstByte(k, ':', " " + v);
    if name + ": " <= line {
      var rest := " " + line[|name| + 2..];
      assert line == name + [':'] + rest;
      FirstByte(name, ':', rest);
      assert name == line[..|name|] && k == line[..|k|];
    }
  }

  lemma {:induction false} LengthIs(m: Headers, order: seq<string>)
    requires Printable(m) && forall i | 0 <= i < |order| :: order[i] in m
    ensures FieldValue(HeaderLines(m, order), LENGTH) == if LENGTH in order then Some(m[LENGTH]) else None
  {
    if order != [] {
      var k := order[0];
      var lines := HeaderLines(m, order);
      assert lines[1..] == HeaderLines(m, order[1..]);
      LengthIs(m, order[1..]);
      assert HeaderLine(LENGTH, m[k])[|LENGTH| + 2..] == m[k];
      assert order == [k] + order[1..];
    }
  }

  /** Reading the printed request recovers the request line, the header lines and the body. */
  lemma ReframePrinted(line: string, m: Headers, order: seq<string>, body: string)
    requires line != "" && OneLine(line) && Printable(m) && Enumerates(order, m) && order != []
    requires |body| <= INT64_MAX
    requires if body == "" then "Content-Length" !in m
             else "Content-Length" in m && m["Content-Length"] == Numeral(|body|, 10)
    ensures Reframe(Printed(line, HeaderLines(m, order), body)) == Some(Message(line, HeaderLines(m, order), body))
  {
    hide Printed, Find, Tokens, HeaderLines, Join, Numeral, Stoll, FieldValue, Lines, Reframe;
    var fields := HeaderLines(m, order);
    var rest := if body == "" then "" else body + CRLF;
    LinesAreFramed(line, m, order);
    TextShape(line, fields, body);
    BlockFound([line] + fields, rest);
    LengthIs(m, order);
    assert "Content-Length" in order <==> "Content-Length" in (set k | k in order);
    NumeralRoundTrip(|body|, "");
    assert Numeral(|body|, 10) + "" == Numeral(|body|, 10);
    assert body != "" ==> rest[..|body|] == body;
    ReframeIs(Join([line] + fields, CRLF), line, fields, rest, body);
  }

  /** The reader's steps, once the block, its lines and the length are known. */
  lemma ReframeIs(block: string, line: string, fields: seq<string>, rest: string, body: string)
    requires Find(block + HEADER_END + rest, HEADER_END, 0) == Some(|block|)
    requires Tokens(block, CRLF) == [line] + fields
    requires match FieldValue(fields, "Content-Length")
             case None => body == ""
             case Some(v) => Stoll(v) == Some(|body|) && |body| <= |rest| && rest[..|body|] == body
    ensures Reframe(block + HEADER_END + rest) == Some(Message(line, fields, body))
  {
    hide Find, Tokens, FieldValue, Stoll;
    var text := block + HEADER_END + rest;
    assert text[..|block|] == block && text[|block| + 4..] == rest;
    assert ([line] + fields)[1..] == fields;
  }

  lemma TextShape(line: string, fields: seq<string>, body: string)
    ensures Printed(line, fields, body)
            == Join([line] + fields, CRLF) + HEADER_END + (if body == "" then "" else body + CRLF)
  {
    hide Broken, Join;
    BrokenIsJoin(line, fields);
    assert HEADER_END == CRLF + CRLF;
  }

  lemma LinesAreFramed(line: string, m: Headers, order: seq<string>)
    requires line != "" && OneLine(line) && Printable(m)
    requires forall i | 0 <= i < |order| :: order[i] in m
    ensures Lines([line] + HeaderLines(m, order))
  {
    var lines := [line] + HeaderLines(m, order);
    OneLineHasNoCrlf(line);
    forall i | 0 <= i < |lines|
      ensures lines[i] != "" && !Contains(lines[i], CRLF)
    {
      if i > 0 {
        assert lines[i] == HeaderLine(order[i - 1], m[order[i - 1]]);
        OneLineHasNoCrlf(lines[i]);
      }
    }
  }

  lemma {:induction false} GroupsOneLine(s: seq<Base64.byte>)
    ensures OneLine(Base64.Groups(s))
  {
    if |s| >= 3 {
      GroupsOneLine(s[3..]);
    }
  }

  lemma PrintableAdd(m: Headers, k: string, v: string)
    requires Printable(m) && OneLine(k) && OneLine(v)
    requires k in {LENGTH, "Host", "Authorization"}
    ensures Printable(m[k := v])
  {
    assert k != LENGTH ==> HeaderLine(k, v)[0] == k[0] != LENGTH[0];
    assert k != LENGTH ==> !(LENGTH + ": " <= HeaderLine(k, v));
  }

  lemma CredentialsOneLine(userInfo: string)
    ensures OneLine(Credentials(userInfo))
  {
    hide Base64.Groups;
    GroupsOneLine(Octets(userInfo));
  }

  lemma FixedNames()
    ensures OneLine("Content-Length") && OneLine("Host") && OneLine("Authorization")
  {
  }

  lemma PreparedIsPrintable(headers: Headers, body: string, url: Parts)
    requires Printable(headers) && OneLine(url.host)
    ensures Printable(Prepared(headers, body, url))
    ensures "Host" in Prepared(headers, body, url)
    ensures body != "" ==> "Content-Length" in Prepared(headers, body, url)
                           && Prepared(headers, body, url)["Content-Length"] == Numeral(|body|, 10)
    ensures body == "" && "Content-Length" !in headers ==> "Content-Length" !in Prepared(headers, body, url)
  {
    hide Numeral, Base64.Groups, Printable, OneLine, Credentials;
    NumeralValue(|body|, 10);
    CredentialsOneLine(url.userInfo);
    FixedNames();
    var h1 := if body == "" then headers else headers["Content-Length" := Numeral(|body|, 10)];
    PrintableAdd(headers, "Content-Length", Numeral(|body|, 10));
    PrintableAdd(h1, "Host", url.host);
    PrintableAdd(h1["Host" := url.host], "Authorization", Credentials(url.userInfo));
  }

  lemma RequestLineOneLine(m: HttpMethodType, url: Parts)
    requires OneLine(url.path) && OneLine(url.query)
    ensures RequestLine(m, url) != "" && OneLine(RequestLine(m, url))
  {
    hide OneLine;
    FixedParts(m);
    OneLineParts(MethodName(m), " ");
    OneLineParts(MethodName(m) + " ", url.path);
    OneLineParts("?", url.query);
    var query := if url.query == "" then "" else "?" + url.query;
    OneLineParts(MethodName(m) + " " + url.path, query);
    OneLineParts(MethodName(m) + " " + url.path + query, " HTTP/1.1");
  }

  lemma FixedParts(m: HttpMethodType)
    ensures OneLine(MethodName(m)) && OneLine(" ") && OneLine("?") && OneLine("") && OneLine(" HTTP/1.1")
  {
  }

  lemma OneLineParts(a: string, b: string)
    ensures OneLine(a + b) <==> OneLine(a) && OneLine(b)
  {
  }

  lemma LinesExact(m: Headers, order: seq<string>)
    requires forall i | 0 <= i < |order| :: order[i] in m
    ensures forall i | 0 <= i < |order| :: HeaderLines(m, order)[i] == order[i] + ": " + m[order[i]]
  {
  }

  /** Printing is undone by framing: with no CR or LF in the path, the query, the host and the user's header
      fields, and none of those that reads like a Content-Length, the request line, every header field
      and the body are recovered; and the credentials decode to the URL's user info. */
  lemma EncodeReframes(m: HttpMethodType, headers: Headers, body: string, url: Parts, order: seq<string>)
    requires Printable(headers) && OneLine(url.host) && OneLine(url.path) && OneLine(url.query)
    requires |body| <= INT64_MAX && (body == "" ==> "Content-Length" !in headers)
    requires Enumerates(order, Prepared(headers, body, url))
    ensures var h := Prepared(headers, body, url);
            var line := RequestLine(m, url);
            var credentials := if "Authorization" in h && |h["Authorization"]| >= 6 then h["Authorization"]
                               else "Basic ";
            && Reframe(Printed(line, HeaderLines(h, order), body)) == Some(Message(line, HeaderLines(h, order), body))
            && (forall i | 0 <= i < |order| ::
                  order[i] in h && HeaderLines(h, order)[i] == order[i] + ": " + h[order[i]])
            && ("Authorization" !in headers && url.userInfo != "" ==>
                && "Authorization" in h && credentials[..6] == "Basic "
                && Base64.Decode(credentials[6..]).Some?
                && var bytes := Base64.Decode(credentials[6..]).value;
                   |bytes| == |url.userInfo|
                   && forall i | 0 <= i < |bytes| :: bytes[i] as int == url.userInfo[i] as int % 256)
  {
    hide Numeral, Base64.Groups, Base64.Decode, Reframe, Printed, Printable, HeaderLines, MethodName;
    var h := Prepared(headers, body, url);
    PreparedIsPrintable(headers, body, url);
    assert "Host" in (set k | k in order);
    var line := RequestLine(m, url);
    RequestLineOneLine(m, url);
    assert order != [];
    ReframePrinted(line, h, order, body);
    Base64.RoundTrip(Octets(url.userInfo), Base64.Groups(Octets(url.userInfo)));
    OctetsExact(url.userInfo);
    LinesExact(h, order);
    assert Credentials(url.userInfo)[6..] == Base64.Groups(Octets(url.userInfo));
  }
}
