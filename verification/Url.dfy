/** `Url`: the parser by nested cuts, and the exact set of layouts it reads
    (section 3 of RFC 3986). */
module Urls {
  import opened Text

  const FLAG: string := "://"

  datatype Parts = Parts(scheme: string, userInfo: string, host: string, port: string,
                         path: string, query: string, fragment: string)

  // ---------- What parse computes ----------

  predicate IsAlnum(c: char) {
    'a' <= c <= 'z' || 'A' <= c <= 'Z' || '0' <= c <= '9'
  }

  predicate CheckScheme(scheme: string) {
    scheme != "" && forall i | 0 <= i < |scheme| :: scheme[i] == '-' || IsAlnum(scheme[i])
  }

  function DefaultPort(scheme: string): string {
    if scheme == "https" then "443" else "80"
  }

  /** What stands before and after the first `c`; everything and None when there is none. */
  function Cut(s: string, c: char): (r: (string, Option<string>)) {
    match IndexOf(s, c)
    case None => (s, None)
    case Some(i) => (s[..i], Some(s[i + 1..]))
  }

  function OrElse(o: Option<string>, default: string): string {
    if o.Some? then o.value else default
  }

  /** Whether the last ':' of an authority separates a port: not when it belongs to an IPv6 address. */
  predicate SplitsPort(view: string, portPos: nat)
    requires portPos < |view|
  {
    view[0] != '[' || (IndexOf(view, ']').Some? && IndexOf(view, ']').value < portPos)
  }

  function PortPos(view: string): (r: Option<nat>)
    ensures r.Some? ==> r.value < |view|
  {
    var p := LastIndexOf(view, ':');
    if p.Some? && SplitsPort(view, p.value) then p else None
  }

  function ParseAuthority(view: string, scheme: string): (string, string) {
    match PortPos(view)
    case Some(p) => (view[..p], view[p + 1..])
    case None => (view, DefaultPort(scheme))
  }

  /** The text after "://", cut at '#', then '?', then '/', then '@', then the port. */
  function ParseRest(scheme: string, rest: string): Parts {
    var (v1, fragment) := Cut(rest, '#');
    var (v2, query) := Cut(v1, '?');
    var (v3, path) := Cut(v2, '/');
    var (user, afterAt) := Cut(v3, '@');
    var (host, port) := ParseAuthority(if afterAt.Some? then afterAt.value else v3, scheme);
    Parts(scheme, if afterAt.Some? then user else "", host, port,
          if path.Some? then "/" + path.value else "/",
          OrElse(query, ""), OrElse(fragment, ""))
  }

  function Parse(url: string): Option<Parts> {
    match Find(url, FLAG, 0)
    case None => None
    case Some(p) => if CheckScheme(url[..p]) then Some(ParseRest(url[..p], url[p + 3..])) else None
  }

  /** The fields are set step by step, starting from the defaults. */
  class Url {
    var scheme: string
    var host: string
    var port: string
    var path: string
    var userInfo: string
    var query: string
    var fragment: string
    var valid: bool

    function Fields(): Parts
      reads this
    {
      Parts(scheme, userInfo, host, port, path, query, fragment)
    }

    predicate IsHttp()
      reads this
    {
      scheme == "http"
    }

    predicate IsHttps()
      reads this
    {
      scheme == "https"
    }

    predicate IsHttpScheme()
      reads this
    {
      IsHttp() || IsHttps()
    }

    constructor (url: string)
      ensures valid <==> Parse(url).Some?
      ensures valid ==> Fields() == Parse(url).value
      ensures !valid ==> !IsHttpScheme()
    {
      scheme, host, port, path, userInfo, query, fragment := "", "", "80", "", "", "", "";
      valid := true;
      new;
      ParseInto(url);
    }

    /** The last steps of `parse`: the port, by default the scheme's, and the host. */
    method ParseHostPort(authority: string)
      requires port == "80"
      modifies `port, `host
      ensures (host, port) == ParseAuthority(authority, scheme)
    {
      hide LastIndexOf, IndexOf;
      var view := authority;
      var portPos := LastIndexOf(view, ':');
      if portPos.Some? && SplitsPort(view, portPos.value) {
        port := view[portPos.value + 1..];
        view := view[..portPos.value];
      } else if IsHttp() {
        port := "80";
      } else if IsHttps() {
        port := "443";
      }
      host := view;
    }

    /** The middle steps of `parse`: fragment, query and path leave the authority with its user info. */
    method ParseTail(rest: string) returns (view: string)
      requires path == query == fragment == ""
      modifies `path, `query, `fragment
      ensures var (v1, f) := Cut(rest, '#');
              var (v2, q) := Cut(v1, '?');
              && view == Cut(v2, '/').0
              && fragment == OrElse(f, "") && query == OrElse(q, "")
              && path == if Cut(v2, '/').1.Some? then "/" + Cut(v2, '/').1.value else "/"
    {
      hide LastIndexOf, IndexOf;
      view := rest;
      var fragmentPos := IndexOf(view, '#');
      if fragmentPos.Some? {
        fragment := view[fragmentPos.value + 1..];
        view := view[..fragmentPos.value];
      }
      var queryPos := IndexOf(view, '?');
      if queryPos.Some? {
        query := view[queryPos.value + 1..];
        view := view[..queryPos.value];
      }
      var pathPos := IndexOf(view, '/');
      if pathPos.Some? {
        path := view[pathPos.value..];
        assert path == "/" + view[pathPos.value + 1..];
        view := view[..pathPos.value];
      } else {
        path := "/";
      }
    }

    method ParseInto(url: string)
      requires Fields() == Parts("", "", "", "80", "", "", "")
      modifies this
      ensures valid <==> Parse(url).Some?
      ensures valid ==> Fields() == Parse(url).value
      ensures !valid ==> !IsHttpScheme()
    {
      hide Find, IndexOf, LastIndexOf, CheckScheme, PortPos, ParseAuthority, OrElse;
      var flagPos := Find(url, FLAG, 0);
      if flagPos.None? {
        valid := false;
        return;
      }
      var schemeView := url[..flagPos.value];
      if CheckScheme(schemeView) {
        scheme := schemeView;
      } else {
        valid := false;
        return;
      }
      var view := ParseTail(url[flagPos.value + |FLAG|..]);
      var userInfoPos := IndexOf(view, '@');
      if userInfoPos.Some? {
        userInfo := view[..userInfoPos.value];
        view := view[userInfoPos.value + 1..];
      }
      ParseHostPort(view);
      valid := true;
    }
  }

  // ---------- Which texts mean which parts ----------

  /** Which of the optional pieces are written out. */
  datatype Layout = Layout(user: bool, port: bool, path: bool, query: bool, fragment: bool)

  function Authority(p: Parts, l: Layout): string {
    p.host + if l.port then ":" + p.port else ""
  }

  function WithUser(p: Parts, l: Layout): string {
    (if l.user then p.userInfo + "@" else "") + Authority(p, l)
  }

  function WithPath(p: Parts, l: Layout): string {
    WithUser(p, l) + if l.path then p.path else ""
  }

  function WithQuery(p: Parts, l: Layout): string {
    WithPath(p, l) + if l.query then "?" + p.query else ""
  }

  function WithFragment(p: Parts, l: Layout): string {
    WithQuery(p, l) + if l.fragment then "#" + p.fragment else ""
  }

  /** scheme "://" [userInfo "@"] host [":" port] [path] ["?" query] ["#" fragment] */
  function Print(p: Parts, l: Layout): string {
    p.scheme + FLAG + WithFragment(p, l)
  }

  predicate NoQuery(s: string) {
    '#' !in s && '?' !in s
  }

  predicate NoPath(s: string) {
    NoQuery(s) && '/' !in s
  }

  /** A host that a port may follow: an opening bracket must be closed. */
  predicate Closed(host: string) {
    host == "" || host[0] != '[' || ']' in host
  }

  /** A host after which no port is looked for: no ':' at all, or, behind an opening bracket, no ':'
      after a closing one. */
  ghost predicate Portless(host: string) {
    ':' !in host ||
    (host[0] == '[' && forall i, j | 0 <= i < j < |host| :: !(host[i] == ']' && host[j] == ':'))
  }

  lemma PortlessExact(host: string)
    ensures PortPos(host).None? <==> Portless(host)
  {
    var p := LastIndexOf(host, ':');
    if p.Some? && host[0] == '[' {
      var b := IndexOf(host, ']');
      assert forall i, j | 0 <= i < j < |host| && host[i] == ']' && host[j] == ':' ::
          b.Some? && b.value <= i && j <= p.value;
      assert b.Some? && b.value < p.value ==> host[b.value] == ']' && host[p.value] == ':';
    }
  }

  /** A bracketed IPv6 address may stand with a port and without. */
  lemma BracketedHost(address: string)
    requires ']' !in address
    ensures Closed("[" + address + "]") && Portless("[" + address + "]")
  {
    var host := "[" + address + "]";
    assert host[|host| - 1] == ']';
    assert forall i | 1 <= i < |host| - 1 :: host[i] == address[i - 1];
  }

  /** The pieces keep clear of the delimiters that are looked for before or within them, and the
      pieces not written out have their defaults. */
  ghost predicate Fits(p: Parts, l: Layout) {
    && CheckScheme(p.scheme)
    && (l.user ==> NoPath(p.userInfo) && '@' !in p.userInfo)
    && (!l.user ==> p.userInfo == "" && '@' !in Authority(p, l))
    && NoPath(Authority(p, l))
    && (l.port ==> ':' !in p.port && Closed(p.host))
    && (!l.port ==> p.port == DefaultPort(p.scheme) && Portless(p.host))
    && (l.path ==> p.path != "" && p.path[0] == '/' && NoQuery(p.path))
    && (!l.path ==> p.path == "/")
    && (l.query ==> '#' !in p.query)
    && (!l.query ==> p.query == "")
    && (!l.fragment ==> p.fragment == "")
  }

  lemma CutWritten(a: string, c: char, b: string)
    requires c !in a
    ensures Cut(a + [c] + b, c) == (a, Some(b))
  {
    FirstByte(a, c, b);
    var s := a + [c] + b;
    assert s[..|a|] == a && s[|a| + 1..] == b;
  }

  lemma CutAbsent(a: string, c: char)
    requires c !in a
    ensures Cut(a, c) == (a, None)
  {
  }

  lemma SchemeFirst(scheme: string, rest: string)
    requires CheckScheme(scheme)
    ensures Find(scheme + FLAG + rest, FLAG, 0) == Some(|scheme|)
  {
    var s := scheme + FLAG + rest;
    assert s[|scheme|..|scheme| + 3] == FLAG;
    assert OccursAt(s, FLAG, |scheme|);
    forall j: nat | j < |scheme|
      ensures !OccursAt(s, FLAG, j)
    {
      assert s[j] == scheme[j] != ':';
      assert j + 3 <= |s| ==> s[j..j + 3][0] == s[j];
    }
  }

  lemma AuthorityReads(p: Parts, l: Layout)
    requires Fits(p, l)
    ensures ParseAuthority(Authority(p, l), p.scheme) == (p.host, p.port)
  {
    var a := Authority(p, l);
    if l.port {
      assert a == p.host + [':'] + p.port;
      LastByte(p.host, ':', p.port);
      var n := |p.host|;
      if p.host != "" && p.host[0] == '[' {
        BracketInHost(p.host, ":" + p.port);
        assert a == p.host + (":" + p.port);
      }
      assert PortPos(a) == Some(n);
      assert a[..n] == p.host && a[n + 1..] == p.port;
    } else {
      PortlessExact(p.host);
      assert a == p.host;
    }
  }

  lemma BracketInHost(host: string, tail: string)
    requires ']' in host
    ensures IndexOf(host + tail, ']').Some? && IndexOf(host + tail, ']').value < |host|
  {
    var i :| 0 <= i < |host| && host[i] == ']';
    assert (host + tail)[i] == ']';
  }

  /** Parsing undoes printing, with the scheme's default port when none is printed. */
  lemma ParseUndoesPrint(p: Parts, l: Layout)
    requires Fits(p, l)
    ensures Parse(Print(p, l)) == Some(p)
  {
    var url := Print(p, l);
    SchemeFirst(p.scheme, WithFragment(p, l));
    assert url[..|p.scheme|] == p.scheme;
    assert url[|p.scheme| + 3..] == WithFragment(p, l);
    RestReads(p, l);
  }

  lemma RestReads(p: Parts, l: Layout)
    requires Fits(p, l)
    ensures ParseRest(p.scheme, WithFragment(p, l)) == p
  {
    hide Cut, ParseAuthority;
    FragmentCut(p, l);
    QueryCut(p, l);
    PathCut(p, l);
    UserCut(p, l);
    AuthorityReads(p, l);
  }

  lemma FragmentCut(p: Parts, l: Layout)
    requires Fits(p, l)
    ensures Cut(WithFragment(p, l), '#') == (WithQuery(p, l), if l.fragment then Some(p.fragment) else None)
  {
    hide Cut, WithQuery, Fits;
    QueryAvoids(p, l, '#');
    if l.fragment {
      CutWritten(WithQuery(p, l), '#', p.fragment);
      assert WithFragment(p, l) == WithQuery(p, l) + ['#'] + p.fragment;
    } else {
      CutAbsent(WithQuery(p, l), '#');
      assert WithFragment(p, l) == WithQuery(p, l);
    }
  }

  lemma UserAvoids(p: Parts, l: Layout, c: char)
    requires Fits(p, l) && (c == '#' || c == '?' || c == '/')
    ensures c !in WithUser(p, l)
  {
  }

  lemma PathAvoids(p: Parts, l: Layout, c: char)
    requires Fits(p, l) && (c == '#' || c == '?')
    ensures c !in WithPath(p, l)
  {
    UserAvoids(p, l, c);
  }

  lemma QueryAvoids(p: Parts, l: Layout, c: char)
    requires Fits(p, l) && c == '#'
    ensures c !in WithQuery(p, l)
  {
    PathAvoids(p, l, c);
  }

  lemma QueryCut(p: Parts, l: Layout)
    requires Fits(p, l)
    ensures Cut(WithQuery(p, l), '?') == (WithPath(p, l), if l.query then Some(p.query) else None)
  {
    hide Cut, WithPath;
    PathAvoids(p, l, '?');
    if l.query {
      CutWritten(WithPath(p, l), '?', p.query);
      assert WithQuery(p, l) == WithPath(p, l) + ['?'] + p.query;
    } else {
      CutAbsent(WithPath(p, l), '?');
      assert WithQuery(p, l) == WithPath(p, l);
    }
  }

  lemma PathCut(p: Parts, l: Layout)
    requires Fits(p, l)
    ensures Cut(WithPath(p, l), '/') == (WithUser(p, l), if l.path then Some(p.path[1..]) else None)
    ensures p.path == "/" + p.path[1..]
  {
    hide Cut, WithUser;
    UserAvoids(p, l, '/');
    if l.path {
      CutWritten(WithUser(p, l), '/', p.path[1..]);
      assert WithPath(p, l) == WithUser(p, l) + ['/'] + p.path[1..];
    } else {
      CutAbsent(WithUser(p, l), '/');
      assert WithPath(p, l) == WithUser(p, l);
    }
  }

  lemma UserCut(p: Parts, l: Layout)
    requires Fits(p, l)
    ensures Cut(WithUser(p, l), '@') ==
            if l.user then (p.userInfo, Some(Authority(p, l))) else (Authority(p, l), None)
    ensures !l.user ==> WithUser(p, l) == Authority(p, l)
  {
    if l.user {
      CutWritten(p.userInfo, '@', Authority(p, l));
      assert WithUser(p, l) == p.userInfo + ['@'] + Authority(p, l);
    } else {
      assert WithUser(p, l) == Authority(p, l);
    }
  }

  // ---------- Every accepted text is such a layout ----------

  /** The layout that `Parse` found. */
  function LayoutOf(rest: string): Layout {
    var (v1, fragment) := Cut(rest, '#');
    var (v2, query) := Cut(v1, '?');
    var (v3, path) := Cut(v2, '/');
    var (_, afterAt) := Cut(v3, '@');
    Layout(afterAt.Some?, PortPos(if afterAt.Some? then afterAt.value else v3).Some?,
           path.Some?, query.Some?, fragment.Some?)
  }

  lemma CutSplits(s: string, c: char)
    ensures c !in Cut(s, c).0
    ensures s == Cut(s, c).0 + if Cut(s, c).1.Some? then [c] + Cut(s, c).1.value else ""
  {
  }

  lemma AuthoritySplits(view: string, scheme: string)
    ensures var (host, port) := ParseAuthority(view, scheme);
            match PortPos(view)
            case Some(_) => view == host + ":" + port && ':' !in port && Closed(host)
            case None => view == host && port == DefaultPort(scheme)
  {
    match PortPos(view)
    case Some(n) =>
      assert view == view[..n] + ":" + view[n + 1..];
      if view[0] == '[' {
        var i := IndexOf(view, ']').value;
        assert view[..n][i] == ']';
      }
    case None =>
  }

  /** The authority and the user info are cut out of a text free of '#', '?' and '/'. */
  lemma UserSplits(v3: string, view: string, p: Parts, l: Layout)
    requires NoPath(v3)
    requires l.user == Cut(v3, '@').1.Some? && l.port == PortPos(view).Some?
    requires view == OrElse(Cut(v3, '@').1, v3)
    requires p.userInfo == if l.user then Cut(v3, '@').0 else ""
    requires (p.host, p.port) == ParseAuthority(view, p.scheme)
    ensures WithUser(p, l) == v3
    ensures Authority(p, l) == view && NoPath(view)
    ensures (l.user ==> NoPath(p.userInfo) && '@' !in p.userInfo) && (!l.user ==> '@' !in view)
    ensures (l.port ==> ':' !in p.port && Closed(p.host)) &&
            (!l.port ==> p.port == DefaultPort(p.scheme) && Portless(p.host))
  {
    hide Cut, ParseAuthority, PortPos, Closed, Portless, DefaultPort;
    CutSplits(v3, '@');
    AuthoritySplits(view, p.scheme);
    PortlessExact(p.host);
    assert Authority(p, l) == view;
    assert l.user ==> v3 == p.userInfo + "@" + view;
  }

  /** Parsing partitions its input: an accepted text is the printed form of what was parsed. */
  lemma PrintUndoesParse(url: string)
    requires Parse(url).Some?
    ensures var p := Parse(url).value;
            && |p.scheme| + 3 <= |url|
            && var l := LayoutOf(url[|p.scheme| + 3..]);
            Fits(p, l) && Print(p, l) == url
  {
    hide Cut, ParseAuthority, PortPos, CheckScheme, Find;
    var p := Parse(url).value;
    var rest := url[|p.scheme| + 3..];
    var l := LayoutOf(rest);
    FlagSplits(url);
    RestSplits(p.scheme, rest);
  }

  lemma RestSplits(scheme: string, rest: string)
    requires CheckScheme(scheme)
    ensures var p := ParseRest(scheme, rest);
            var l := LayoutOf(rest);
            Fits(p, l) && WithFragment(p, l) == rest
  {
    hide Cut, ParseAuthority, PortPos, CheckScheme, Closed, Portless, Authority;
    var p := ParseRest(scheme, rest);
    var l := LayoutOf(rest);
    CutSplits(rest, '#');
    var (v1, fragment) := Cut(rest, '#');
    CutSplits(v1, '?');
    var (v2, query) := Cut(v1, '?');
    CutSplits(v2, '/');
    var (v3, path) := Cut(v2, '/');
    assert '#' !in v2 && '#' !in v3 && '?' !in v3;
    UserSplits(v3, OrElse(Cut(v3, '@').1, v3), p, l);
    assert l.path ==> p.path == "/" + path.value && '#' !in p.path && '?' !in p.path;
    assert WithPath(p, l) == v2;
    assert WithQuery(p, l) == v1;
    assert WithFragment(p, l) == rest;
  }

  /** Exactly the printed layouts are accepted, and each is read as what was printed. */
  lemma ParseExact(url: string, p: Parts)
    ensures Parse(url) == Some(p) <==> exists l :: Fits(p, l) && url == Print(p, l)
  {
    if Parse(url) == Some(p) {
      PrintUndoesParse(url);
    }
    forall l | Fits(p, l) && url == Print(p, l)
      ensures Parse(url) == Some(p)
    {
      ParseUndoesPrint(p, l);
    }
  }

  lemma FlagSplits(url: string)
    requires Find(url, FLAG, 0).Some?
    ensures var n := Find(url, FLAG, 0).value;
            n + 3 <= |url| && url == url[..n] + FLAG + url[n + 3..] && |url[..n]| == n
  {
    hide Find;
    var n := Find(url, FLAG, 0).value;
    assert url[n..n + 3] == FLAG;
    assert url == url[..n] + url[n..n + 3] + url[n + 3..];
  }

  lemma SchemeOfRest(scheme: string, rest: string)
    ensures ParseRest(scheme, rest).scheme == scheme
  {
  }

  lemma SchemeAccepted(scheme: string, rest: string)
    requires CheckScheme(scheme)
    ensures Parse(scheme + FLAG + rest).Some? && Parse(scheme + FLAG + rest).value.scheme == scheme
  {
    hide Find, CheckScheme, ParseRest;
    SchemeOfRest(scheme, (scheme + FLAG + rest)[|scheme| + 3..]);
    SchemeFirst(scheme, rest);
    assert (scheme + FLAG + rest)[..|scheme|] == scheme;
  }

  /** Acceptance looks at nothing but the text before the first "://": letters, digits and '-'. */
  lemma AcceptsExactly(url: string)
    ensures Parse(url).Some? <==>
              exists scheme, rest: string ::
                && scheme != ""
                && (forall i | 0 <= i < |scheme| ::
                      'a' <= scheme[i] <= 'z' || 'A' <= scheme[i] <= 'Z' || '0' <= scheme[i] <= '9' || scheme[i] == '-')
                && url == scheme + "://" + rest
  {
    hide Find, ParseRest;
    if Parse(url).Some? {
      FlagSplits(url);
      assert FLAG == "://";
    }
    forall scheme, rest: string | CheckScheme(scheme) && url == scheme + "://" + rest
      ensures Parse(url).Some?
    {
      SchemeAccepted(scheme, rest);
    }
  }

  /** The scheme is what stands before the first "://". */
  lemma SchemeExact(url: string, scheme: string)
    requires CheckScheme(scheme)
    ensures Parse(url).Some? && Parse(url).value.scheme == scheme <==>
              exists rest: string :: url == scheme + "://" + rest
  {
    hide Find, ParseRest, CheckScheme;
    if Parse(url).Some? && Parse(url).value.scheme == scheme {
      FlagSplits(url);
      var n := Find(url, FLAG, 0).value;
      SchemeOfRest(url[..n], url[n + 3..]);
      assert FLAG == "://";
    }
    forall rest: string | url == scheme + "://" + rest
      ensures Parse(url).Some? && Parse(url).value.scheme == scheme
    {
      SchemeAccepted(scheme, rest);
    }
  }

  /** A host that nothing in an authority can be mistaken in. */
  predicate PlainHost(host: string) {
    forall i | 0 <= i < |host| :: host[i] !in {'/', '?', '#', '@', ':', '['}
  }

  /** Nothing but a scheme and a host: the path is "/", and the port is 443 for https and 80 otherwise. */
  lemma BareHost(scheme: string, host: string)
    requires CheckScheme(scheme) && PlainHost(host)
    ensures Parse(scheme + "://" + host)
            == Some(Parts(scheme, "", host, if scheme == "https" then "443" else "80", "/", "", ""))
  {
    var p := Parts(scheme, "", host, if scheme == "https" then "443" else "80", "/", "", "");
    var l := Layout(false, false, false, false, false);
    assert Authority(p, l) == host && WithUser(p, l) == host && WithPath(p, l) == host && WithQuery(p, l) == host;
    assert Print(p, l) == scheme + "://" + host;
    ParseUndoesPrint(p, l);
  }

  /** Everything written out. */
  lemma FullUrl(scheme: string, user: string, host: string, port: string, path: string, query: string,
                fragment: string)
    requires CheckScheme(scheme) && PlainHost(host) && PlainHost(port)
    requires forall i | 0 <= i < |user| :: user[i] !in {'/', '?', '#', '@'}
    requires (forall i | 0 <= i < |path| :: path[i] !in {'?', '#'}) && '#' !in query
    ensures Parse(scheme + "://" + user + "@" + host + ":" + port + "/" + path + "?" + query + "#" + fragment)
            == Some(Parts(scheme, user, host, port, "/" + path, query, fragment))
  {
    hide Parse;
    var p := Parts(scheme, user, host, port, "/" + path, query, fragment);
    var l := Layout(true, true, true, true, true);
    assert Print(p, l) == scheme + "://" + user + "@" + host + ":" + port + "/" + path + "?" + query + "#" + fragment;
    ParseUndoesPrint(p, l);
  }
}
