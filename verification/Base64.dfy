/** encode::base64Encode: a 32-bit accumulator that is never masked, against the groups of
    three bytes of section 4 of RFC 4648, and the decoder that undoes it. */
module Base64 {
  import opened Text

  newtype byte = x: int | 0 <= x < 256

  const ALPHABET: string := "ABCDEFGHIJKLMNOPQRSTUVWXYZ" + "abcdefghijklmnopqrstuvwxyz" + "0123456789+/"

  // ---------- The specification: groups of three bytes ----------

  /** Table 1 of RFC 4648. */
  function Symbol(v: int): (c: char)
    requires 0 <= v < 64
    ensures c != '='
  {
    if v < 26 then 'A' + v as char
    else if v < 52 then 'a' + (v - 26) as char
    else if v < 62 then '0' + (v - 52) as char
    else if v == 62 then '+'
    else '/'
  }

  lemma AlphabetIsTable1(v: int)
    requires 0 <= v < 64
    ensures ALPHABET[v] == Symbol(v)
  {
    if v < 26 {
      assert ALPHABET[v] == "ABCDEFGHIJKLMNOPQRSTUVWXYZ"[v];
    } else if v < 52 {
      assert ALPHABET[v] == "abcdefghijklmnopqrstuvwxyz"[v - 26];
    } else {
      assert ALPHABET[v] == "0123456789+/"[v - 52];
    }
  }

  lemma SymbolExact(v: int)
    requires 0 <= v < 64
    ensures Symbol(v) == ("ABCDEFGHIJKLMNOPQRSTUVWXYZ" + "abcdefghijklmnopqrstuvwxyz" + "0123456789+/")[v]
  {
    AlphabetIsTable1(v);
  }

  /** Three bytes give four symbols; a short last group is padded with '='. */
  function Groups(s: seq<byte>): string {
    if |s| == 0 then ""
    else if |s| == 1 then
      var a := s[0] as int;
      [Symbol(a / 4), Symbol(a % 4 * 16), '=', '=']
    else if |s| == 2 then
      var a, b := s[0] as int, s[1] as int;
      [Symbol(a / 4), Symbol(a % 4 * 16 + b / 16), Symbol(b % 16 * 4), '=']
    else
      Quad(s[0] as int, s[1] as int, s[2] as int) + Groups(s[3..])
  }

  function Quad(a: int, b: int, c: int): string
    requires 0 <= a < 256 && 0 <= b < 256 && 0 <= c < 256
  {
    [Symbol(a / 4), Symbol(a % 4 * 16 + b / 16), Symbol(b % 16 * 4 + c / 64), Symbol(c % 64)]
  }

  // ---------- The accumulator ----------

  /** Two's complement wrap-around of a 32-bit int. */
  function Wrap32(v: int): int {
    var m := v % 0x1_0000_0000;
    if m < 0x8000_0000 then m else m - 0x1_0000_0000
  }

  function Pow2(n: nat): (r: nat)
    ensures r > 0
  {
    if n == 0 then 1 else 2 * Pow2(n - 1)
  }

  /** `(v >> k) & 0x3F` on a signed int: an arithmetic shift, then the low six bits. */
  function Sextet(v: int, k: nat): (r: int)
    ensures 0 <= r < 64
  {
    v / Pow2(k) % 64
  }

  lemma Shifts()
    ensures Pow2(0) == 1 && Pow2(2) == 4 && Pow2(4) == 16 && Pow2(6) == 64
  {
    assert Pow2(2) == 2 * Pow2(1);
    assert Pow2(4) == 2 * Pow2(3) == 4 * Pow2(2);
    assert Pow2(6) == 2 * Pow2(5) == 4 * Pow2(4);
  }

  /** Wrapping adds a multiple of 2^32. */
  lemma Wrapped(v: int) returns (k: int)
    ensures Wrap32(v) == v + 0x1_0000_0000 * k
  {
    k := -(v / 0x1_0000_0000) - if v % 0x1_0000_0000 < 0x8000_0000 then 0 else 1;
  }

  /** The accumulator after shifting `c` in. */
  function Shift(val: int, c: int): int {
    Wrap32(Wrap32(val * 256) + c)
  }

  /** Overflow never shows: of `val` only the low four bits survive into the low twelve. */
  lemma Shifted(val: int, c: int) returns (k: int)
    ensures Shift(val, c) == 4096 * k + 256 * (val % 16) + c
  {
    var k1 := Wrapped(val * 256);
    var k2 := Wrapped(Wrap32(val * 256) + c);
    k := val / 16 + 0x10_0000 * (k1 + k2);
  }

  lemma FirstSextet(w: int, k: int, l: int, c: int)
    requires w == 4096 * k + 256 * l + c && 0 <= l < 16 && 0 <= c < 256
    ensures w / 4 % 64 == c / 4
  {
    assert w / 4 == 64 * (16 * k + l) + c / 4;
  }

  lemma SecondSextet(w: int, k: int, l: int, c: int)
    requires w == 4096 * k + 256 * l + c && 0 <= l < 16 && 0 <= c < 256
    ensures w / 16 % 64 == l % 4 * 16 + c / 16
  {
    assert w / 16 == 64 * (4 * k + l / 4) + (l % 4 * 16 + c / 16);
  }

  lemma ThirdSextet(w: int, k: int, l: int, c: int)
    requires w == 4096 * k + 256 * l + c && 0 <= l < 16 && 0 <= c < 256
    ensures w / 64 % 64 == l * 4 + c / 64
  {
    assert w / 64 == 64 * k + (l * 4 + c / 64);
  }

  lemma FourthSextet(w: int, k: int, l: int, c: int)
    requires w == 4096 * k + 256 * l + c && 0 <= l < 16 && 0 <= c < 256
    ensures w % 64 == c % 64
  {
    assert w == 64 * (64 * k + 4 * l) + c;
  }

  lemma KeptFour(w: int, k: int, l: int, c: int)
    requires w == 4096 * k + 256 * l + c && 0 <= l < 16 && 0 <= c < 256
    ensures w % 16 == c % 16
  {
    assert w == 16 * (256 * k + 16 * l) + c;
  }

  lemma KeptTwo(w: int, k: int, l: int, c: int)
    requires w == 4096 * k + 256 * l + c && 0 <= l < 16 && 0 <= c < 256
    ensures w % 4 == c % 4
  {
    assert w == 4 * (1024 * k + 64 * l) + c;
  }

  lemma ModMod(v: int)
    ensures v % 16 % 4 == v % 4
  {
    assert v == 4 * (4 * (v / 16)) + v % 16;
  }

  /** The symbols taken after shifting `c` in, and the bits kept for the next byte, depend on `c`
      and the low four bits of `val` only. */
  lemma Observed(val: int, c: int)
    requires 0 <= c < 256
    ensures var w := Shift(val, c);
            && Sextet(w, 2) == c / 4
            && Sextet(w, 4) == val % 4 * 16 + c / 16
            && Sextet(w, 6) == val % 16 * 4 + c / 64
            && Sextet(w, 0) == c % 64
            && w % 4 == c % 4 && w % 16 == c % 16
  {
    hide Shift;
    var w := Shift(val, c);
    var k := Shifted(val, c);
    Shifts();
    FirstSextet(w, k, val % 16, c);
    SecondSextet(w, k, val % 16, c);
    ThirdSextet(w, k, val % 16, c);
    FourthSextet(w, k, val % 16, c);
    KeptFour(w, k, val % 16, c);
    KeptTwo(w, k, val % 16, c);
    ModMod(val);
  }

  /** The symbols already determined by the bytes read so far. */
  function Settled(s: seq<byte>): (r: string)
    ensures |r| == |s| / 3 * 4 + |s| % 3
  {
    if |s| == 0 then ""
    else if |s| == 1 then [Symbol(s[0] as int / 4)]
    else if |s| == 2 then [Symbol(s[0] as int / 4), Symbol(s[0] as int % 4 * 16 + s[1] as int / 16)]
    else Quad(s[0] as int, s[1] as int, s[2] as int) + Settled(s[3..])
  }

  /** What the inner loop pushes when it starts at `valb`. */
  function Emitted(val: int, valb: int): string {
    if valb < 0 then "" else [Symbol(Sextet(val, valb))] + Emitted(val, valb - 6)
  }

  /** Where the inner loop leaves `valb`. */
  function Drained(valb: int): int {
    if valb < 0 then valb else Drained(valb - 6)
  }

  /** The trailing loop: '=' until the length is a multiple of four. */
  function Padded(res: string): string
    decreases (4 - |res| % 4) % 4
  {
    if |res| % 4 == 0 then res else Padded(res + "=")
  }

  /** Bits still waiting in the accumulator after `i` bytes, less six: valb is -6, -4 or -2. */
  function Waiting(i: nat): int {
    -6 + 2 * (i % 3)
  }

  ghost predicate Holds(val: int, s: seq<byte>) {
    && (|s| % 3 == 1 ==> val % 4 == s[|s| - 1] as int % 4)
    && (|s| % 3 == 2 ==> val % 16 == s[|s| - 1] as int % 16)
  }

  /** One more byte, in terms of the specification. */
  function Added(s: seq<byte>, c: int): string
    requires 0 <= c < 256
  {
    if |s| % 3 == 0 then [Symbol(c / 4)]
    else if |s| % 3 == 1 then [Symbol(s[|s| - 1] as int % 4 * 16 + c / 16)]
    else [Symbol(s[|s| - 1] as int % 16 * 4 + c / 64), Symbol(c % 64)]
  }

  lemma SettledUnfold(s: seq<byte>)
    requires |s| >= 3
    ensures Settled(s) == Quad(s[0] as int, s[1] as int, s[2] as int) + Settled(s[3..])
  {
  }

  lemma {:induction false} SettledStep(s: seq<byte>, c: byte)
    ensures Settled(s + [c]) == Settled(s) + Added(s, c as int)
  {
    var t := s + [c];
    if |s| >= 3 {
      hide Symbol, Settled, Quad, Added;
      SettledUnfold(s);
      SettledUnfold(t);
      assert t[3..] == s[3..] + [c];
      SettledStep(s[3..], c);
      AddedShift(s, c);
    } else if |s| == 2 {
      hide Symbol;
      assert t[3..] == [];
      assert Settled(t) == Quad(s[0] as int, s[1] as int, c as int) + Settled([]);
    }
  }

  lemma AddedShift(s: seq<byte>, c: byte)
    requires |s| >= 3
    ensures Added(s, c as int) == Added(s[3..], c as int)
  {
    hide Symbol;
    assert |s| % 3 == |s[3..]| % 3;
    assert |s| > 3 ==> s[|s| - 1] == s[3..][|s| - 4];
  }

  lemma EmittedIsAdded(val: int, s: seq<byte>, c: byte)
    requires Holds(val, s)
    ensures Emitted(Shift(val, c as int), Waiting(|s|) + 8) == Added(s, c as int)
    ensures Holds(Shift(val, c as int), s + [c])
    ensures Drained(Waiting(|s|) + 8) == Waiting(|s + [c]|)
  {
    hide Shift, Sextet, Symbol;
    var w := Shift(val, c as int);
    Observed(val, c as int);
    ModMod(val);
    assert Emitted(w, 6) == [Symbol(Sextet(w, 6))] + Emitted(w, 0);
    assert Emitted(w, 0) == [Symbol(Sextet(w, 0))] + Emitted(w, -6);
    assert Emitted(w, 4) == [Symbol(Sextet(w, 4))] + Emitted(w, -2);
    assert Emitted(w, 2) == [Symbol(Sextet(w, 2))] + Emitted(w, -4);
    assert Drained(6) == Drained(0) == Drained(-6);
    assert |s + [c]| % 3 == if |s| % 3 == 2 then 0 else |s| % 3 + 1;
    assert Waiting(|s|) + 8 == if |s| % 3 == 0 then 2 else if |s| % 3 == 1 then 4 else 6;
  }

  lemma {:induction false} Flush(s: seq<byte>)
    ensures Groups(s) == Settled(s) +
            (if |s| % 3 == 0 then ""
             else if |s| % 3 == 1 then [Symbol(s[|s| - 1] as int % 4 * 16), '=', '=']
             else [Symbol(s[|s| - 1] as int % 16 * 4), '='])
  {
    if |s| >= 3 {
      Flush(s[3..]);
    }
  }

  /** The symbol flushed for a short last group: `((val << 8) >> (valb + 8)) & 0x3F`. */
  lemma FlushedSymbol(val: int, s: seq<byte>)
    requires Holds(val, s) && |s| % 3 != 0
    ensures Sextet(Wrap32(val * 256), Waiting(|s|) + 8)
            == if |s| % 3 == 1 then s[|s| - 1] as int % 4 * 16 else s[|s| - 1] as int % 16 * 4
  {
    hide Sextet;
    var k := Wrapped(val * 256);
    var w, k' := Wrap32(val * 256), val / 16 + 0x10_0000 * k;
    SecondSextet(w, k', val % 16, 0);
    ThirdSextet(w, k', val % 16, 0);
    ModMod(val);
    SextetIs(w);
  }

  lemma SextetIs(w: int)
    ensures Sextet(w, 4) == w / 16 % 64 && Sextet(w, 6) == w / 64 % 64
  {
    Shifts();
  }

  lemma PadOne(bare: string, k: nat)
    requires |bare| == 4 * k + 3
    ensures Padded(bare) == bare + "="
  {
    assert |bare| % 4 == 3 && |bare + "="| % 4 == 0;
  }

  lemma PadTwo(bare: string, k: nat)
    requires |bare| == 4 * k + 2
    ensures Padded(bare) == bare + "=" + "="
  {
    hide Padded;
    PadOne(bare + "=", k);
    PadStep(bare, k);
  }

  lemma PadStep(bare: string, k: nat)
    requires |bare| == 4 * k + 2
    ensures Padded(bare) == Padded(bare + "=")
  {
    assert |bare| % 4 == 2;
  }

  /** After the loop over the bytes: flushing and padding complete the specification. */
  lemma Finish(val: int, s: seq<byte>)
    requires Holds(val, s)
    ensures Waiting(|s|) > -6 <==> |s| % 3 != 0
    ensures Padded(Settled(s) + if |s| % 3 == 0 then ""
                                else [ALPHABET[Sextet(Wrap32(val * 256), Waiting(|s|) + 8)]]) == Groups(s)
  {
    hide Settled, Groups, Symbol, Sextet, Wrap32, Padded, Holds, Waiting;
    Flush(s);
    WaitingPhase(|s|);
    var k := |s| / 3;
    if |s| % 3 == 0 {
      PaddedAlready(Settled(s), k);
      assert Settled(s) + "" == Settled(s);
    } else {
      FlushedSymbol(val, s);
      var v := Sextet(Wrap32(val * 256), Waiting(|s|) + 8);
      AlphabetIsTable1(v);
      var bare := Settled(s) + [Symbol(v)];
      if |s| % 3 == 1 {
        PadTwo(bare, k);
        assert Groups(s) == bare + "=" + "=";
      } else {
        PadOne(bare, k);
        assert Groups(s) == bare + "=";
      }
    }
  }

  lemma WaitingPhase(n: nat)
    ensures Waiting(n) > -6 <==> n % 3 != 0
  {
  }

  lemma PaddedAlready(bare: string, k: nat)
    requires |bare| == 4 * k
    ensures Padded(bare) == bare
  {
    assert |bare| % 4 == 0;
  }

  method Base64Encode(str: seq<byte>) returns (res: string)
    ensures res == Groups(str)
  {
    hide Groups, Settled, Wrap32, Sextet, Symbol, Added;
    res := "";
    var val, valb := 0, -6;
    Flush([]);
    assert str[..0] == [] && Settled([]) == "";
    for i := 0 to |str|
      invariant valb == Waiting(|str[..i]|) && Holds(val, str[..i])
      invariant res == Settled(str[..i])
    {
      hide Waiting, Holds, Padded;
      var c := str[i];
      assert str[..i + 1] == str[..i] + [c];
      EmittedIsAdded(val, str[..i], c);
      SettledStep(str[..i], c);
      val := Wrap32(Wrap32(val * 256) + c as int);
      valb := valb + 8;
      ghost var end, all := Drained(valb), res + Emitted(val, valb);
      while valb >= 0
        invariant res + Emitted(val, valb) == all
        invariant Drained(valb) == end
        decreases valb
      {
        AlphabetIsTable1(Sextet(val, valb));
        res := res + [ALPHABET[Sextet(val, valb)]];
        valb := valb - 6;
      }
    }
    assert str[..|str|] == str;
    Finish(val, str);
    assert Settled(str) + "" == Settled(str);
    if valb > -6 {
      res := res + [ALPHABET[Sextet(Wrap32(val * 256), valb + 8)]];
    }
    while |res| % 4 != 0
      invariant Padded(res) == Groups(str)
      decreases (4 - |res| % 4) % 4
    {
      res := res + "=";
    }
  }

  // ---------- The decoder ----------

  function SymbolValue(c: char): (v: Option<int>)
    ensures v.Some? ==> 0 <= v.value < 64 && Symbol(v.value) == c
  {
    if 'A' <= c <= 'Z' then Some(c as int - 'A' as int)
    else if 'a' <= c <= 'z' then Some(c as int - 'a' as int + 26)
    else if '0' <= c <= '9' then Some(c as int - '0' as int + 52)
    else if c == '+' then Some(62)
    else if c == '/' then Some(63)
    else None
  }

  /** One group of four symbols; the bits that padding hides must be zero. */
  function DecodeQuad(t: string): (r: Option<seq<byte>>)
    requires |t| == 4
    ensures r.Some? ==> 1 <= |r.value| <= 3
  {
    var v := (SymbolValue(t[0]), SymbolValue(t[1]), SymbolValue(t[2]), SymbolValue(t[3]));
    if v.0.None? || v.1.None? then None
    else
      var a := v.0.value * 4 + v.1.value / 16;
      if t[2] == '=' && t[3] == '=' then
        if v.1.value % 16 == 0 then Some([a as byte]) else None
      else if v.2.None? then None
      else
        var b := v.1.value % 16 * 16 + v.2.value / 4;
        if t[3] == '=' then
          if v.2.value % 4 == 0 then Some([a as byte, b as byte]) else None
        else if v.3.None? then None
        else Some([a as byte, b as byte, (v.2.value % 4 * 64 + v.3.value) as byte])
  }

  /** Groups of four; a padded group may only be the last. */
  function Decode(t: string): Option<seq<byte>> {
    if t == "" then Some([])
    else if |t| < 4 then None
    else
      match DecodeQuad(t[..4])
      case None => None
      case Some(group) =>
        if |group| < 3 then (if |t| == 4 then Some(group) else None)
        else
          match Decode(t[4..])
          case None => None
          case Some(rest) => Some(group + rest)
  }

  lemma SymbolValueOf(v: int)
    requires 0 <= v < 64
    ensures SymbolValue(Symbol(v)) == Some(v)
  {
  }

  lemma Regrouped(a: int, b: int, c: int)
    requires 0 <= a < 256 && 0 <= b < 256 && 0 <= c < 256
    ensures a / 4 * 4 + (a % 4 * 16 + b / 16) / 16 == a
    ensures (a % 4 * 16 + b / 16) % 16 * 16 + (b % 16 * 4 + c / 64) / 4 == b
    ensures (b % 16 * 4 + c / 64) % 4 * 64 + c % 64 == c
  {
    assert b / 16 < 16 && c / 64 < 4;
    assert (a % 4 * 16 + b / 16) / 16 == a % 4 && (a % 4 * 16 + b / 16) % 16 == b / 16;
    assert (b % 16 * 4 + c / 64) / 4 == b % 16 && (b % 16 * 4 + c / 64) % 4 == c / 64;
  }

  lemma SymbolsRead(a: int, b: int, c: int)
    requires 0 <= a < 256 && 0 <= b < 256 && 0 <= c < 256
    ensures SymbolValue(Symbol(a / 4)) == Some(a / 4)
    ensures SymbolValue(Symbol(a % 4 * 16 + b / 16)) == Some(a % 4 * 16 + b / 16)
    ensures SymbolValue(Symbol(b % 16 * 4 + c / 64)) == Some(b % 16 * 4 + c / 64)
    ensures SymbolValue(Symbol(c % 64)) == Some(c % 64)
  {
    hide Symbol, SymbolValue;
    SymbolValueOf(a / 4);
    SymbolValueOf(a % 4 * 16 + b / 16);
    SymbolValueOf(b % 16 * 4 + c / 64);
    SymbolValueOf(c % 64);
  }

  lemma ThreeRoundTrip(a: byte, b: byte, c: byte)
    ensures DecodeQuad(Quad(a as int, b as int, c as int)) == Some([a, b, c])
  {
    hide Symbol, SymbolValue;
    SymbolsRead(a as int, b as int, c as int);
    Regrouped(a as int, b as int, c as int);
  }

  lemma TwoRoundTrip(a: byte, b: byte)
    ensures DecodeQuad(Groups([a, b])) == Some([a, b]) && |Groups([a, b])| == 4
  {
    hide Symbol, SymbolValue;
    SymbolsRead(a as int, b as int, 0);
    Regrouped(a as int, b as int, 0);
  }

  lemma OneRoundTrip(a: byte)
    ensures DecodeQuad(Groups([a])) == Some([a]) && |Groups([a])| == 4
  {
    hide Symbol, SymbolValue;
    SymbolsRead(a as int, 0, 0);
    Regrouped(a as int, 0, 0);
  }

  lemma GroupsOfThree(s: seq<byte>)
    requires |s| == 3
    ensures Groups(s) == Quad(s[0] as int, s[1] as int, s[2] as int)
  {
    hide Quad;
    assert s[3..] == [];
  }

  lemma QuadRoundTrip(s: seq<byte>)
    requires 1 <= |s| <= 3
    ensures |Groups(s)| == 4 && DecodeQuad(Groups(s)) == Some(s)
  {
    hide Groups, DecodeQuad;
    if |s| == 3 {
      GroupsOfThree(s);
      ThreeRoundTrip(s[0], s[1], s[2]);
      assert s == [s[0], s[1], s[2]];
    } else if |s| == 2 {
      TwoRoundTrip(s[0], s[1]);
      assert s == [s[0], s[1]];
    } else {
      OneRoundTrip(s[0]);
      assert s == [s[0]];
    }
  }

  lemma Ungrouped(v0: int, v1: int, v2: int, v3: int)
    requires 0 <= v0 < 64 && 0 <= v1 < 64 && 0 <= v2 < 64 && 0 <= v3 < 64
    ensures var a, b, c := v0 * 4 + v1 / 16, v1 % 16 * 16 + v2 / 4, v2 % 4 * 64 + v3;
            && a / 4 == v0 && a % 4 * 16 + b / 16 == v1 && b % 16 * 4 + c / 64 == v2 && c % 64 == v3
            && (v1 % 16 == 0 ==> a % 4 * 16 == v1) && (v2 % 4 == 0 ==> b % 16 * 4 == v2)
  {
    var a, b, c := v0 * 4 + v1 / 16, v1 % 16 * 16 + v2 / 4, v2 % 4 * 64 + v3;
    assert a / 4 == v0 && a % 4 == v1 / 16;
    assert b / 16 == v1 % 16 && b % 16 == v2 / 4;
    assert c / 64 == v2 % 4 && c % 64 == v3;
  }

  lemma QuadExact(t: string)
    requires |t| == 4 && DecodeQuad(t).Some?
    ensures Groups(DecodeQuad(t).value) == t
  {
    hide Symbol, SymbolValue;
    var s := DecodeQuad(t).value;
    var v0, v1 := SymbolValue(t[0]).value, SymbolValue(t[1]).value;
    var v2 := if SymbolValue(t[2]).Some? then SymbolValue(t[2]).value else 0;
    var v3 := if SymbolValue(t[3]).Some? then SymbolValue(t[3]).value else 0;
    Ungrouped(v0, v1, v2, v3);
    assert t == [t[0], t[1], t[2], t[3]];
    if |s| == 3 {
      GroupsOfThree(s);
    }
  }

  lemma GroupsUnfold(s: seq<byte>)
    requires |s| >= 3
    ensures Groups(s) == Groups(s[..3]) + Groups(s[3..])
    ensures |Groups(s[..3])| == 4
  {
    hide Symbol;
    GroupsOfThree(s[..3]);
  }

  lemma {:induction false} DecodeEncode(s: seq<byte>)
    ensures Decode(Groups(s)) == Some(s)
  {
    hide DecodeQuad, Symbol;
    if |s| >= 3 {
      hide Groups;
      GroupsUnfold(s);
      QuadRoundTrip(s[..3]);
      DecodeEncode(s[3..]);
      var t := Groups(s);
      assert t[..4] == Groups(s[..3]) && t[4..] == Groups(s[3..]);
      assert s == s[..3] + s[3..];
    } else if |s| > 0 {
      QuadRoundTrip(s);
      assert Groups(s)[..4] == Groups(s);
    }
  }

  lemma {:induction false} EncodeDecode(t: string)
    ensures match Decode(t) case None => true case Some(s) => Groups(s) == t
  {
    if Decode(t).Some? && t != "" {
      hide DecodeQuad, Groups;
      var s := Decode(t).value;
      QuadExact(t[..4]);
      var group := DecodeQuad(t[..4]).value;
      if |group| < 3 {
        assert t[..4] == t;
      } else {
        EncodeDecode(t[4..]);
        GroupsUnfold(s);
        assert s[..3] == group && s[3..] == Decode(t[4..]).value;
        assert t == t[..4] + t[4..];
      }
    }
  }

  /** Encoding and decoding are inverse to each other between byte strings and the texts the
      decoder accepts, so encoding is injective. */
  lemma RoundTrip(s: seq<byte>, t: string)
    ensures Decode(t) == Some(s) <==> t == Groups(s)
  {
    DecodeEncode(s);
    EncodeDecode(t);
  }

  function PadCount(n: nat): nat {
    if n % 3 == 0 then 0 else 3 - n % 3
  }

  /** Four symbols for every three bytes begun; '=' exactly at the last 0, 1 or 2 places. */
  lemma {:induction false} Shape(s: seq<byte>)
    ensures |Groups(s)| == (|s| + 2) / 3 * 4
    ensures forall i | 0 <= i < |Groups(s)| ::
              Groups(s)[i] == '=' <==> i >= |Groups(s)| - PadCount(|s|)
  {
    hide Symbol;
    if |s| >= 3 {
      Shape(s[3..]);
    }
  }

  /** Section 4 of RFC 4648: where the symbols of the g-th group come from. */
  lemma {:induction false} GroupsExact(s: seq<byte>, g: nat)
    requires 3 * g < |s|
    ensures var a := s[3 * g] as int;
            var b := if 3 * g + 1 < |s| then s[3 * g + 1] as int else 0;
            var c := if 3 * g + 2 < |s| then s[3 * g + 2] as int else 0;
            && 4 * g + 4 <= |Groups(s)|
            && Groups(s)[4 * g] == Symbol(a / 4)
            && Groups(s)[4 * g + 1] == Symbol(a % 4 * 16 + b / 16)
            && Groups(s)[4 * g + 2] == (if 3 * g + 1 < |s| then Symbol(b % 16 * 4 + c / 64) else '=')
            && Groups(s)[4 * g + 3] == (if 3 * g + 2 < |s| then Symbol(c % 64) else '=')
  {
    hide Symbol;
    if g > 0 {
      GroupsExact(s[3..], g - 1);
    }
  }
}
