/** The C library's integer reader (strtol, as std::stoi, std::stol and std::stoll use it)
    and the printing that it undoes. */
module Numbers {
  import opened Text

  const INT32_MIN: int := -0x8000_0000
  const INT32_MAX: int := 0x7fff_ffff
  const INT64_MIN: int := -0x8000_0000_0000_0000
  const INT64_MAX: int := 0x7fff_ffff_ffff_ffff

  /** isspace in the "C" locale. */
  predicate IsSpace(c: char) {
    c == ' ' || 9 <= c as int <= 13
  }

  function DigitOf(c: char): int {
    if '0' <= c <= '9' then c as int - '0' as int
    else if 'a' <= c <= 'z' then c as int - 'a' as int + 10
    else if 'A' <= c <= 'Z' then c as int - 'A' as int + 10
    else 36
  }

  predicate IsDigit(c: char, base: nat) {
    DigitOf(c) < base
  }

  function SkipSpaces(s: string): string {
    if s != "" && IsSpace(s[0]) then SkipSpaces(s[1..]) else s
  }

  /** The longest prefix that consists of digits. */
  function DigitRun(s: string, base: nat): string {
    if s != "" && IsDigit(s[0], base) then [s[0]] + DigitRun(s[1..], base) else ""
  }

  function Value(digits: string, base: nat): int {
    if digits == "" then 0
    else Value(digits[..|digits| - 1], base) * base + DigitOf(digits[|digits| - 1])
  }

  function AfterSign(s: string): string {
    if s != "" && (s[0] == '-' || s[0] == '+') then s[1..] else s
  }

  function AfterHexPrefix(s: string, base: nat): string {
    if base == 16 && |s| >= 3 && s[0] == '0' && (s[1] == 'x' || s[1] == 'X') && IsDigit(s[2], 16)
    then s[2..] else s
  }

  /** strtol over unbounded integers; None when there are no digits to read. */
  function Strtol(s: string, base: nat): Option<int> {
    var t := SkipSpaces(s);
    var digits := DigitRun(AfterHexPrefix(AfterSign(t), base), base);
    if digits == "" then None
    else Some(if t[0] == '-' then -Value(digits, base) else Value(digits, base))
  }

  /** None stands for std::invalid_argument and std::out_of_range. */
  function InRange(v: Option<int>, lo: int, hi: int): Option<int> {
    if v.Some? && lo <= v.value <= hi then v else None
  }

  function Stoi(s: string): Option<int> {
    InRange(Strtol(s, 10), INT32_MIN, INT32_MAX)
  }

  function Stoll(s: string): Option<int> {
    InRange(Strtol(s, 10), INT64_MIN, INT64_MAX)
  }

  /** `std::stol(s, nullptr, 16)` with a 64-bit long. */
  function StolHex(s: string): Option<int> {
    InRange(Strtol(s, 16), INT64_MIN, INT64_MAX)
  }

  predicate AllDigits(s: string, base: nat) {
    forall i | 0 <= i < |s| :: IsDigit(s[i], base)
  }

  lemma {:induction false} DigitRunStops(digits: string, rest: string, base: nat)
    requires AllDigits(digits, base)
    requires rest == "" || !IsDigit(rest[0], base)
    ensures DigitRun(digits + rest, base) == digits
  {
    if digits == "" {
      assert digits + rest == rest;
    } else {
      assert (digits + rest)[1..] == digits[1..] + rest;
      DigitRunStops(digits[1..], rest, base);
      assert digits == [digits[0]] + digits[1..];
    }
  }

  /** A numeral is read up to the first byte that cannot belong to it, whatever follows. */
  lemma ReadsNumeral(digits: string, rest: string, base: nat)
    requires base == 10 || base == 16
    requires digits != "" && AllDigits(digits, base)
    requires rest == "" || (!IsDigit(rest[0], base) && rest[0] != 'x' && rest[0] != 'X')
    ensures Strtol(digits + rest, base) == Some(Value(digits, base))
  {
    var s := digits + rest;
    assert s[0] == digits[0] && IsDigit(digits[0], base);
    assert SkipSpaces(s) == s && AfterSign(s) == s;
    if |s| >= 2 {
      assert s[1] == if |digits| > 1 then digits[1] else rest[0];
    }
    assert AfterHexPrefix(s, base) == s;
    DigitRunStops(digits, rest, base);
  }

  function DigitChar(d: nat): (c: char)
    requires d < 16
    ensures DigitOf(c) == d
  {
    if d < 10 then '0' + d as char else 'a' + (d - 10) as char
  }

  /** std::to_string for base 10, the chunk-size numeral for base 16. */
  function Numeral(n: nat, base: nat): (r: string)
    requires base == 10 || base == 16
    ensures r != ""
  {
    if n < base then [DigitChar(n)] else Numeral(n / base, base) + [DigitChar(n % base)]
  }

  lemma {:induction false} NumeralValue(n: nat, base: nat)
    requires base == 10 || base == 16
    ensures AllDigits(Numeral(n, base), base)
    ensures OneLine(Numeral(n, base))
    ensures Value(Numeral(n, base), base) == n
  {
    if n < base {
      assert Value([DigitChar(n)], base) == Value([], base) * base + n;
    } else {
      var front := Numeral(n / base, base);
      NumeralValue(n / base, base);
      var r := Numeral(n, base);
      assert r[..|r| - 1] == front;
    }
  }

  /** A printed number is read back, also with a chunk extension or other text behind it. */
  lemma NumeralRoundTrip(n: nat, rest: string)
    requires n <= INT64_MAX
    requires rest == "" || (!IsDigit(rest[0], 16) && rest[0] != 'x' && rest[0] != 'X')
    ensures Stoll(Numeral(n, 10) + rest) == Some(n)
    ensures StolHex(Numeral(n, 16) + rest) == Some(n)
  {
    NumeralValue(n, 10);
    NumeralValue(n, 16);
    ReadsNumeral(Numeral(n, 10), rest, 10);
    ReadsNumeral(Numeral(n, 16), rest, 16);
  }

  /** Nothing to read: the reader throws. */
  lemma EmptyNumeralThrows()
    ensures StolHex("").None? && Stoll("").None?
  {
    assert DigitRun("", 16) == "" && DigitRun("", 10) == "";
  }

  // ---------- The reader, from tables ----------

  /** The values of digit characters in either case. */
  ghost predicate SpelledBy(s: string, v: seq<nat>) {
    && |s| == |v|
    && forall i | 0 <= i < |s| ::
         v[i] < 16 && (s[i] == "0123456789abcdef"[v[i]] || s[i] == "0123456789ABCDEF"[v[i]])
  }

  /** The number that a list of digits stands for. */
  ghost function Positional(v: seq<nat>, base: nat): nat {
    if v == [] then 0 else Positional(v[..|v| - 1], base) * base + v[|v| - 1]
  }

  lemma DigitTable(c: char, v: nat)
    requires v < 16 && (c == "0123456789abcdef"[v] || c == "0123456789ABCDEF"[v])
    ensures DigitOf(c) == v
  {
    if v < 10 {
      assert "0123456789abcdef"[v] == "0123456789"[v] && "0123456789ABCDEF"[v] == "0123456789"[v];
    } else {
      assert "0123456789abcdef"[v] == "abcdef"[v - 10] && "0123456789ABCDEF"[v] == "ABCDEF"[v - 10];
    }
  }

  lemma {:induction false} SpelledValue(s: string, v: seq<nat>, base: nat)
    requires SpelledBy(s, v)
    ensures Value(s, base) == Positional(v, base)
    ensures (forall i | 0 <= i < |v| :: v[i] < base) ==> AllDigits(s, base)
  {
    if s != "" {
      var n := |s| - 1;
      SpelledValue(s[..n], v[..n], base);
    }
    forall i | 0 <= i < |s|
      ensures DigitOf(s[i]) == v[i]
    {
      DigitTable(s[i], v[i]);
    }
  }

  /** Characters that cannot go on a numeral. */
  ghost predicate EndsNumeral(rest: string, base: nat) {
    rest == "" || forall v: nat | v < base && v < 16 ::
      rest[0] != "0123456789abcdef"[v] && rest[0] != "0123456789ABCDEF"[v]
  }

  lemma TableDigit(c: char, base: nat) returns (v: nat)
    requires (base == 10 || base == 16) && IsDigit(c, base)
    ensures v < base && v < 16 && (c == "0123456789abcdef"[v] || c == "0123456789ABCDEF"[v])
  {
    v := DigitOf(c);
    if v < 10 {
      assert "0123456789abcdef"[v] == "0123456789"[v];
    } else {
      assert "0123456789abcdef"[v] == "abcdef"[v - 10] && "0123456789ABCDEF"[v] == "ABCDEF"[v - 10];
    }
  }

  lemma EndsRun(rest: string, base: nat)
    requires EndsNumeral(rest, base) && (base == 10 || base == 16)
    ensures rest == "" || !IsDigit(rest[0], base)
  {
    hide IsDigit;
    if rest != "" && IsDigit(rest[0], base) {
      var _ := TableDigit(rest[0], base);
    }
  }

  /** HT, LF, VT, FF, CR and space. */
  ghost predicate Blank(s: string) {
    forall i | 0 <= i < |s| :: s[i] as int in {9, 10, 11, 12, 13, 32}
  }

  lemma {:induction false} BlanksSkipped(ws: string, s: string)
    requires Blank(ws) && (s == "" || s[0] as int !in {9, 10, 11, 12, 13, 32})
    ensures SkipSpaces(ws + s) == s
  {
    if ws == "" {
      assert ws + s == s;
    } else {
      assert (ws + s)[1..] == ws[1..] + s;
      BlanksSkipped(ws[1..], s);
    }
  }

  /** White space, a sign, for base 16 a "0x", and then digits in either case, up to what cannot go on. */
  ghost predicate Numeric(ws: string, sign: string, prefix: string, s: string, v: seq<nat>, rest: string, base: nat) {
    && (base == 10 || base == 16)
    && Blank(ws) && sign in {"", "+", "-"} && prefix in {"", "0x", "0X"} && (base == 10 ==> prefix == "")
    && s != "" && SpelledBy(s, v) && (forall i | 0 <= i < |v| :: v[i] < base)
    && EndsNumeral(rest, base)
    && (base == 16 && prefix == "" && s == "0" ==> rest == "" || rest[0] !in {'x', 'X'})
  }

  lemma PrefixSkipped(prefix: string, s: string, rest: string, base: nat)
    requires (base == 10 || base == 16) && prefix in {"", "0x", "0X"} && (base == 10 ==> prefix == "")
    requires s != "" && AllDigits(s, base)
    requires base == 16 && prefix == "" && |s| == 1 && s[0] == '0' ==> rest == "" || rest[0] !in {'x', 'X'}
    ensures AfterHexPrefix(prefix + s + rest, base) == s + rest
  {
    var t := prefix + s + rest;
    assert IsDigit(s[0], base);
    if prefix == "" {
      assert t == s + rest && t[0] == s[0];
      assert |s| >= 2 ==> t[1] == s[1] && IsDigit(s[1], base);
      assert |s| == 1 && rest != "" ==> t[1] == rest[0];
    } else {
      assert t[0] == '0' && t[1] == prefix[1] && t[2] == s[0] && t[2..] == s + rest;
    }
  }

  lemma DigitIsPlain(s: string, base: nat)
    requires (base == 10 || base == 16) && s != "" && AllDigits(s, base)
    ensures s[0] as int !in {9, 10, 11, 12, 13, 32} && s[0] != '-' && s[0] != '+'
  {
    assert IsDigit(s[0], base);
  }

  /** The reader takes such a text for the number that its digits spell, with its sign. */
  lemma StrtolReads(ws: string, sign: string, prefix: string, s: string, v: seq<nat>, rest: string, base: nat)
    requires Numeric(ws, sign, prefix, s, v, rest, base)
    ensures Strtol(ws + (sign + (prefix + s + rest)), base)
            == Some(if sign == "-" then 0 - Positional(v, base) else Positional(v, base))
  {
    hide Positional, SpelledBy, EndsNumeral, DigitRun, Value, AfterSign, AfterHexPrefix, AllDigits, SkipSpaces, IsDigit;
    SpelledValue(s, v, base);
    EndsRun(rest, base);
    SignSkipped(sign, prefix, s, rest, base);
    BlanksSkipped(ws, sign + (prefix + s + rest));
    OnlyZero(s);
    PrefixSkipped(prefix, s, rest, base);
    DigitRunStops(s, rest, base);
  }

  lemma OnlyZero(s: string)
    ensures |s| == 1 && s[0] == '0' ==> s == "0"
  {
  }

  lemma SignSkipped(sign: string, prefix: string, s: string, rest: string, base: nat)
    requires (base == 10 || base == 16) && sign in {"", "+", "-"} && prefix in {"", "0x", "0X"}
    requires s != "" && AllDigits(s, base)
    ensures var t := sign + (prefix + s + rest);
            && t != "" && t[0] as int !in {9, 10, 11, 12, 13, 32}
            && AfterSign(t) == prefix + s + rest && (t[0] == '-' <==> sign == "-")
  {
    var body := prefix + s + rest;
    var t := sign + body;
    DigitIsPlain(s, base);
    assert body[0] == if prefix == "" then s[0] else prefix[0];
    if sign == "" {
      assert t == body;
    } else {
      assert t[0] == sign[0] && t[1..] == body;
    }
  }

  /** std::stoi, std::stoll and std::stol for base 16: that number, when 32 or 64 bits hold it. */
  lemma ReadersExact(ws: string, sign: string, prefix: string, s: string, v: seq<nat>, rest: string, base: nat)
    requires Numeric(ws, sign, prefix, s, v, rest, base)
    ensures var text := ws + (sign + (prefix + s + rest));
            var n := if sign == "-" then 0 - Positional(v, base) else Positional(v, base);
            && (base == 10 ==> Stoi(text) == if -2147483648 <= n <= 2147483647 then Some(n) else None)
            && (base == 10 ==>
                Stoll(text) == if -9223372036854775808 <= n <= 9223372036854775807 then Some(n) else None)
            && (base == 16 ==>
                StolHex(text) == if -9223372036854775808 <= n <= 9223372036854775807 then Some(n) else None)
  {
    hide Strtol;
    StrtolReads(ws, sign, prefix, s, v, rest, base);
  }

  /** No digit behind white space and a sign: nothing is read. */
  lemma NothingToRead(ws: string, sign: string, rest: string, base: nat)
    requires (base == 10 || base == 16) && Blank(ws) && sign in {"", "+", "-"} && EndsNumeral(rest, base)
    requires rest == "" || (rest[0] as int !in {9, 10, 11, 12, 13, 32} && (sign == "" ==> rest[0] !in {'+', '-'}))
    ensures Strtol(ws + (sign + rest), base).None?
  {
    EndsRun(rest, base);
    var t := sign + rest;
    assert t != "" ==> t[0] == if sign == "" then rest[0] else sign[0];
    BlanksSkipped(ws, t);
    assert AfterSign(t) == rest by {
      assert sign == "" ==> t == rest;
      assert sign != "" ==> t[1..] == rest;
    }
    assert DigitRun(rest, base) == "";
    assert base == 16 && rest != "" ==> "0123456789abcdef"[0] == '0' && rest[0] != '0';
  }

  ghost predicate Lower(s: string, v: seq<nat>, base: nat) {
    && |s| == |v|
    && forall i | 0 <= i < |s| :: v[i] < base && v[i] < 16 && s[i] == "0123456789abcdef"[v[i]]
  }

  lemma LowerMore(s: string, v: seq<nat>, d: nat, base: nat)
    requires Lower(s, v, base) && d < base && d < 16
    ensures Lower(s + [DigitChar(d)], v + [d], base)
    ensures Positional(v + [d], base) == Positional(v, base) * base + d
  {
    CharSpells(d);
    assert (v + [d])[..|v|] == v;
  }

  /** What std::to_string prints: the digits of the number, without leading zeros. */
  lemma {:induction false} NumeralSpells(n: nat, base: nat) returns (v: seq<nat>)
    requires base == 10 || base == 16
    ensures Lower(Numeral(n, base), v, base) && Positional(v, base) == n
    ensures v != [] && (v[0] == 0 ==> n == 0 && |v| == 1)
  {
    hide Lower, Positional;
    var front := [];
    NoDigits(base);
    if n >= base {
      front := NumeralSpells(n / base, base);
    }
    LowerMore(if n < base then "" else Numeral(n / base, base), front, n % base, base);
    v := front + [n % base];
    assert n < base ==> "" + [DigitChar(n)] == Numeral(n, base);
  }

  lemma NoDigits(base: nat)
    ensures Lower("", [], base) && Positional([], base) == 0
  {
  }

  lemma CharSpells(d: nat)
    requires d < 16
    ensures DigitChar(d) == "0123456789abcdef"[d]
  {
    if d < 10 {
      assert "0123456789abcdef"[d] == "0123456789"[d];
    } else {
      assert "0123456789abcdef"[d] == "abcdef"[d - 10];
    }
  }
}
