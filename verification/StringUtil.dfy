/** StringUtil: splitting at a delimiter, and the two sides of its inverse law. */
module StringUtil {
  import opened Text

  /** All fields of `s` between delimiters, the empty ones included. */
  function Pieces(s: string, delim: string): (ps: seq<string>)
    requires |delim| > 0
    ensures |ps| > 0
    decreases |s|
  {
    match Find(s, delim, 0)
    case None => [s]
    case Some(p) => [s[..p]] + Pieces(s[p + |delim|..], delim)
  }

  function Join(ps: seq<string>, delim: string): string
    requires |ps| > 0
  {
    if |ps| == 1 then ps[0] else ps[0] + delim + Join(ps[1..], delim)
  }

  lemma JoinCons(first: string, ps: seq<string>, delim: string)
    requires |ps| > 0
    ensures Join([first] + ps, delim) == first + delim + Join(ps, delim)
  {
    assert ([first] + ps)[1..] == ps;
  }

  function Kept(token: string): seq<string> {
    if token == "" then [] else [token]
  }

  function NonEmpty(ps: seq<string>): seq<string> {
    if ps == [] then []
    else Kept(ps[0]) + NonEmpty(ps[1..])
  }

  function Tokens(s: string, delim: string): seq<string>
    requires |delim| > 0
  {
    NonEmpty(Pieces(s, delim))
  }

  ghost predicate Free(ps: seq<string>, delim: string) {
    forall i | 0 <= i < |ps| :: !Contains(ps[i], delim)
  }

  lemma {:induction false} NonEmptyKeeps(ps: seq<string>)
    requires forall i | 0 <= i < |ps| :: ps[i] != ""
    ensures NonEmpty(ps) == ps
  {
    if ps != [] {
      NonEmptyKeeps(ps[1..]);
    }
  }

  lemma {:induction false} NonEmptyFree(ps: seq<string>, delim: string)
    requires Free(ps, delim)
    ensures Free(NonEmpty(ps), delim)
    ensures forall i | 0 <= i < |NonEmpty(ps)| :: NonEmpty(ps)[i] != ""
  {
    if ps != [] {
      NonEmptyFree(ps[1..], delim);
    }
  }

  lemma TokensUnfold(s: string, delim: string)
    requires |delim| > 0
    ensures Tokens(s, delim) == match Find(s, delim, 0)
                                case None => Kept(s)
                                case Some(p) => Kept(s[..p]) + Tokens(s[p + |delim|..], delim)
  {
    hide Find;
    match Find(s, delim, 0)
    case None =>
      assert NonEmpty([s]) == Kept(s) + NonEmpty([]);
    case Some(p) =>
      var rest := Pieces(s[p + |delim|..], delim);
      assert ([s[..p]] + rest)[1..] == rest;
  }

  lemma TokensFrom(s: string, delim: string, start: nat)
    requires |delim| > 0 && start <= |s|
    ensures Tokens(s[start..], delim) ==
            match Find(s, delim, start)
            case None => Kept(s[start..])
            case Some(end) => Kept(s[start..end]) + Tokens(s[end + |delim|..], delim)
  {
    hide Tokens, Find, Pieces, NonEmpty;
    FindShift(s, delim, start);
    TokensUnfold(s[start..], delim);
    match Find(s[start..], delim, 0)
    case None =>
    case Some(p) =>
      assert s[start..][..p] == s[start..start + p];
      assert s[start..][p + |delim|..] == s[start + p + |delim|..];
  }

  /** The search loop; a delimiter of length 0 would never advance `start`. */
  method Split(strView: string, delimiters: string) returns (tokens: seq<string>)
    requires |delimiters| > 0
    ensures tokens == Tokens(strView, delimiters)
  {
    hide Tokens, Find;
    tokens := [];
    var start := 0;
    var end := Find(strView, delimiters, start);
    assert strView[start..] == strView;
    while end.Some?
      invariant start <= |strView|
      invariant end == Find(strView, delimiters, start)
      invariant Tokens(strView, delimiters) == tokens + Tokens(strView[start..], delimiters)
      decreases |strView| - start
    {
      TokensFrom(strView, delimiters, start);
      var token := strView[start..end.value];
      if token != "" {
        tokens := tokens + [token];
      }
      start := end.value + |delimiters|;
      end := Find(strView, delimiters, start);
    }
    TokensFrom(strView, delimiters, start);
    var lastToken := strView[start..];
    if lastToken != "" {
      tokens := tokens + [lastToken];
    }
  }

  lemma BeforeFirstIsFree(s: string, pat: string)
    ensures match Find(s, pat, 0) case None => !Contains(s, pat) case Some(p) => |pat| > 0 ==> !Contains(s[..p], pat)
  {
    match Find(s, pat, 0)
    case None =>
    case Some(p) =>
      forall i: nat | |pat| > 0
        ensures !OccursAt(s[..p], pat, i)
      {
        if i + |pat| <= p {
          assert !OccursAt(s, pat, i);
          assert s[..p][i..i + |pat|] == s[i..i + |pat|];
        }
      }
  }

  /** Nothing but whole delimiters is dropped, and every field is free of the delimiter. */
  lemma {:induction false} JoinPieces(s: string, delim: string)
    requires |delim| > 0
    ensures Join(Pieces(s, delim), delim) == s
    ensures Free(Pieces(s, delim), delim)
    decreases |s|
  {
    BeforeFirstIsFree(s, delim);
    match Find(s, delim, 0)
    case None =>
    case Some(p) =>
      var tail := s[p + |delim|..];
      JoinPieces(tail, delim);
      JoinCons(s[..p], Pieces(tail, delim), delim);
      assert s == s[..p] + s[p..p + |delim|] + tail;
  }

  /** For a delimiter that cannot overlap itself the fields joined with it are found again. */
  lemma {:induction false} PiecesJoin(ps: seq<string>, delim: string)
    requires |ps| > 0 && BorderFree(delim) && Free(ps, delim)
    ensures Pieces(Join(ps, delim), delim) == ps
  {
    hide Find;
    if |ps| == 1 {
      var s := Join(ps, delim);
      assert s == ps[0] && !Contains(s, delim);
    } else {
      var tail := Join(ps[1..], delim);
      var s := ps[0] + delim + tail;
      PiecesJoin(ps[1..], delim);
      FirstOccurrence(ps[0], delim, tail);
      assert s[..|ps[0]|] == ps[0] && s[|ps[0]| + |delim|..] == tail;
    }
  }

  /** What `Split` returns, with no reference to searching: the non-empty fields of the only
      delimiter-free decomposition of the input. */
  lemma TokensExact(s: string, delim: string, ps: seq<string>)
    requires BorderFree(delim)
    requires |ps| > 0 && Free(ps, delim) && Join(ps, delim) == s
    ensures Tokens(s, delim) == NonEmpty(ps)
    ensures Free(Tokens(s, delim), delim)
    ensures forall i | 0 <= i < |Tokens(s, delim)| :: Tokens(s, delim)[i] != ""
  {
    PiecesJoin(ps, delim);
    NonEmptyFree(ps, delim);
  }

  /** Splitting undoes joining for non-empty tokens. */
  lemma SplitUndoesJoin(tokens: seq<string>, delim: string)
    requires |tokens| > 0 && BorderFree(delim) && Free(tokens, delim)
    requires forall i | 0 <= i < |tokens| :: tokens[i] != ""
    ensures Tokens(Join(tokens, delim), delim) == tokens
  {
    PiecesJoin(tokens, delim);
    NonEmptyKeeps(tokens);
  }

  lemma {:induction false} TokensAreShorter(ps: seq<string>, delim: string)
    requires |ps| > 0 && |delim| > 0
    ensures |NonEmpty(ps)| <= |ps|
    ensures forall i | 0 <= i < |NonEmpty(ps)| ::
              |NonEmpty(ps)[i]| <= |Join(ps, delim)| && (|ps| > 1 ==> |NonEmpty(ps)[i]| < |Join(ps, delim)|)
  {
    if |ps| == 1 {
      assert NonEmpty(ps) == Kept(ps[0]) + NonEmpty([]);
    } else {
      TokensAreShorter(ps[1..], delim);
    }
  }

  /** `str.erase(0)` erases to the end: a string that begins with `c` becomes empty. */
  function RemovePrefix(str: string, c: char): string {
    if str != "" && str[0] == c then "" else str
  }
}
