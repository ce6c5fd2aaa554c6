/** Searching in byte strings, as std::string_view's find and rfind do it.
    A `string` stands for a C++ byte string: one char is one byte. */
module Text {

  datatype Option<+T> = None | Some(value: T)

  const CRLF: string := "\r\n"
  const HEADER_END: string := "\r\n\r\n"

  predicate OccursAt(s: string, pat: string, i: nat) {
    i + |pat| <= |s| && s[i..i + |pat|] == pat
  }

  ghost predicate Contains(s: string, pat: string) {
    exists i: nat :: OccursAt(s, pat, i)
  }

  /** `s.find(pat, start)`; None is npos. */
  function Find(s: string, pat: string, start: nat): (r: Option<nat>)
    ensures r.Some? ==> start <= r.value && OccursAt(s, pat, r.value)
    ensures r.Some? ==> forall j: nat | start <= j < r.value :: !OccursAt(s, pat, j)
    ensures r.None? ==> forall j: nat | start <= j :: !OccursAt(s, pat, j)
    decreases |s| - start
  {
    if start + |pat| > |s| then None
    else if OccursAt(s, pat, start) then Some(start)
    else Find(s, pat, start + 1)
  }

  /** `s.find(c)` for a single byte. */
  function IndexOf(s: string, c: char): (r: Option<nat>)
    ensures r.Some? ==> r.value < |s| && s[r.value] == c && forall j | 0 <= j < r.value :: s[j] != c
    ensures r.None? ==> c !in s
  {
    if s == "" then None
    else if s[0] == c then Some(0)
    else
      match IndexOf(s[1..], c)
      case None => None
      case Some(i) =>
        assert forall j | 1 <= j < i + 1 :: s[j] == s[1..][j - 1];
        Some(i + 1)
  }

  /** `s.rfind(c)` for a single byte. */
  function LastIndexOf(s: string, c: char): (r: Option<nat>)
    ensures r.Some? ==> r.value < |s| && s[r.value] == c && forall j | r.value < j < |s| :: s[j] != c
    ensures r.None? ==> c !in s
  {
    if s == "" then None
    else
      var n := |s| - 1;
      if s[n] == c then Some(n) else LastIndexOf(s[..n], c)
  }

  /** A pattern no proper prefix of which is also a suffix of it: two of its occurrences never overlap. */
  ghost predicate BorderFree(pat: string) {
    |pat| > 0 && forall k | 0 < k < |pat| :: pat[..k] != pat[|pat| - k..]
  }

  /** Searching from `start` is searching the suffix. */
  lemma FindShift(s: string, pat: string, start: nat)
    requires start <= |s|
    ensures Find(s, pat, start) ==
            match Find(s[start..], pat, 0) case None => None case Some(i) => Some(start + i)
  {
    forall i: nat
      ensures OccursAt(s[start..], pat, i) <==> OccursAt(s, pat, start + i)
    {
      if start + i + |pat| <= |s| {
        assert s[start..][i..i + |pat|] == s[start + i..start + i + |pat|];
      }
    }
    match Find(s, pat, start)
    case None =>
    case Some(j) => assert OccursAt(s[start..], pat, j - start);
  }

  /** The first delimiter of `a + pat + b` is the one written there when `a` is free of it. */
  lemma FirstOccurrence(a: string, pat: string, b: string)
    requires BorderFree(pat)
    requires !Contains(a, pat)
    ensures Find(a + pat + b, pat, 0) == Some(|a|)
  {
    var s := a + pat + b;
    assert s[|a|..|a| + |pat|] == pat;
    assert OccursAt(s, pat, |a|);
    forall j: nat | j < |a|
      ensures !OccursAt(s, pat, j)
    {
      if j + |pat| <= |a| {
        assert !OccursAt(a, pat, j);
        assert a[j..j + |pat|] == s[j..j + |pat|];
      } else {
        var k := j + |pat| - |a|;
        assert pat[..k] != pat[|pat| - k..];
        assert s[j..j + |pat|][|pat| - k..] == s[|a|..|a| + k] == pat[..k];
      }
    }
  }

  lemma FirstByte(a: string, c: char, b: string)
    requires c !in a
    ensures IndexOf(a + [c] + b, c) == Some(|a|)
  {
    var s := a + [c] + b;
    assert s[|a|] == c;
    assert forall j | 0 <= j < |a| :: s[j] == a[j];
  }

  lemma LastByte(a: string, c: char, b: string)
    requires c !in b
    ensures LastIndexOf(a + [c] + b, c) == Some(|a|)
  {
    var s := a + [c] + b;
    assert s[|a|] == c;
    assert forall j | |a| < j < |s| :: s[j] == b[j - |a| - 1];
  }

  lemma CrlfBorderFree()
    ensures BorderFree(CRLF)
  {
    assert CRLF[..1] == "\r" && CRLF[1..] == "\n";
  }

  /** No CR and no LF at all: what may stand inside one header line. */
  predicate OneLine(s: string) {
    '\r' !in s && '\n' !in s
  }

  lemma OneLineHasNoCrlf(s: string)
    requires OneLine(s)
    ensures !Contains(s, CRLF)
  {
    forall i: nat
      ensures !OccursAt(s, CRLF, i)
    {
      if i + 2 <= |s| {
        assert s[i] == s[i..i + 2][0] && s[i] in s;
      }
    }
  }

  /** The bytes of a list of strings in order. */
  function Concat(parts: seq<string>): string {
    if parts == [] then "" else Concat(parts[..|parts| - 1]) + parts[|parts| - 1]
  }

  lemma ConcatStep(parts: seq<string>, last: string)
    ensures Concat(parts + [last]) == Concat(parts) + last
  {
    assert (parts + [last])[..|parts|] == parts;
  }

  lemma {:induction false} ConcatAppend(a: seq<string>, b: seq<string>)
    ensures Concat(a + b) == Concat(a) + Concat(b)
  {
    if b == [] {
      assert a + b == a;
    } else {
      hide Concat;
      var n := |b| - 1;
      ConcatAppend(a, b[..n]);
      ConcatStep(a + b[..n], b[n]);
      ConcatStep(b[..n], b[n]);
      assert a + b == a + b[..n] + [b[n]] && b == b[..n] + [b[n]];
    }
  }

  lemma {:induction false} ConcatMonotone(parts: seq<string>, k: nat)
    requires k <= |parts|
    ensures Concat(parts[..k]) <= Concat(parts)
  {
    assert parts == parts[..k] + parts[k..];
    ConcatAppend(parts[..k], parts[k..]);
  }
}
