/** How much `Data::append` allocates: `(int64_t)((float)expectLength * 1.5f)`, with binary32
    arithmetic rounded to nearest, ties to even, written out over the integers. */
module Growth {

  /** The spacing of 24-bit significands around `n`. */
  function Ulp(n: nat, u: nat): (r: nat)
    requires u > 0 && (u == 1 || 0x80_0000 * u <= n)
    ensures r >= u && n < 0x100_0000 * r
    ensures r == 1 || 0x80_0000 * r <= n
    decreases n - u
  {
    if n < 0x100_0000 * u then u else Ulp(n, 2 * u)
  }

  function RoundToMultiple(n: nat, u: nat): nat
    requires u > 0
  {
    var q, r := n / u, n % u;
    if 2 * r < u || (2 * r == u && q % 2 == 0) then q * u else (q + 1) * u
  }

  function ToFloat(n: nat): nat {
    RoundToMultiple(n, Ulp(n, 1))
  }

  /** 1.5 * x is 3x counted in halves: the product is rounded there, then truncated. */
  function Grown(expectLength: nat): nat {
    ToFloat(3 * ToFloat(expectLength)) / 2
  }

  lemma RoundError(n: nat, u: nat)
    requires u > 0
    ensures 2 * n <= 2 * RoundToMultiple(n, u) + u
    ensures 2 * RoundToMultiple(n, u) <= 2 * n + u
    ensures u == 1 ==> RoundToMultiple(n, u) == n
  {
    var q, r := n / u, n % u;
    assert n == q * u + r;
    assert (q + 1) * u == q * u + u;
  }

  /** Rounding is to a nearest multiple, and to the even one of two that are equally near. */
  lemma RoundsToEven(n: nat, u: nat) returns (k: nat)
    requires u > 0
    ensures RoundToMultiple(n, u) == k * u
    ensures 2 * n == 2 * RoundToMultiple(n, u) + u || 2 * RoundToMultiple(n, u) == 2 * n + u ==> k % 2 == 0
  {
    var q, r := n / u, n % u;
    var m := q * u;
    assert n == m + r && (q + 1) * u == m + u;
    if 2 * r < u || (2 * r == u && q % 2 == 0) {
      k := q;
      assert RoundToMultiple(n, u) == m;
    } else {
      k := q + 1;
      assert RoundToMultiple(n, u) == m + u;
    }
  }

  /** Converting to float moves a length by at most one part in 2^24, and not at all below 2^24. */
  lemma FloatError(n: nat)
    ensures 0x100_0000 * n <= 0x100_0000 * ToFloat(n) + n
    ensures 0x100_0000 * ToFloat(n) <= 0x100_0000 * n + n
    ensures n < 0x100_0000 ==> ToFloat(n) == n
  {
    RoundError(n, Ulp(n, 1));
  }

  /** While 3E < 2^24 nothing is rounded. */
  lemma GrownExact(e: nat)
    requires 3 * e < 0x100_0000
    ensures Grown(e) == 3 * e / 2
  {
    FloatError(e);
    FloatError(3 * e);
  }

  /** The new buffer always holds the data, with room that keeps reallocation geometric. */
  lemma GrownIsEnough(e: nat)
    ensures Grown(e) >= e
    ensures 3 * Grown(e) >= 4 * e - 4
    ensures Grown(e) <= 2 * e
  {
    FloatError(e);
    FloatError(3 * ToFloat(e));
  }

  // ---------- The cost of growing ----------

  /** Length, capacity and the bytes moved by reallocations so far, for one buffer. */
  datatype Meter = Meter(length: nat, capacity: nat, moved: nat)

  function Extend(m: Meter, n: nat): Meter {
    var e := m.length + n;
    if m.capacity < e then Meter(e, Grown(e), m.moved + m.length) else Meter(e, m.capacity, m.moved)
  }

  function ExtendAll(m: Meter, ns: seq<nat>): Meter {
    if ns == [] then m else Extend(ExtendAll(m, ns[..|ns| - 1]), ns[|ns| - 1])
  }

  function Sum(ns: seq<nat>): nat {
    if ns == [] then 0 else Sum(ns[..|ns| - 1]) + ns[|ns| - 1]
  }

  ghost predicate Amortised(m: Meter) {
    m.length <= m.capacity && m.moved <= 3 * m.capacity && m.moved <= 4 * m.length
  }

  /** The tighter bound, while lengths stay where floats are exact. */
  ghost predicate AmortisedExactly(m: Meter) {
    m.length <= m.capacity && m.moved <= 2 * m.capacity && m.moved <= 3 * m.length
  }

  lemma ExtendKeepsAmortised(m: Meter, n: nat)
    ensures Amortised(m) ==> Amortised(Extend(m, n))
    ensures AmortisedExactly(m) && 3 * (m.length + n) < 0x100_0000 ==> AmortisedExactly(Extend(m, n))
  {
    GrownIsEnough(m.length + n);
    if 3 * (m.length + n) < 0x100_0000 {
      GrownExact(m.length + n);
    }
  }

  /** Any run of appends to an empty buffer moves at most four times the final length, and at
      most three times as long as it stays below 2^24 / 3 bytes. */
  lemma {:induction false} AppendsAreLinear(ns: seq<nat>)
    ensures var m := ExtendAll(Meter(0, 0, 0), ns);
            && m.length == Sum(ns) <= m.capacity
            && m.moved <= 4 * Sum(ns)
            && (3 * Sum(ns) < 0x100_0000 ==> m.moved <= 3 * Sum(ns))
            && Amortised(m) && (3 * Sum(ns) < 0x100_0000 ==> AmortisedExactly(m))
  {
    if ns != [] {
      var init := ns[..|ns| - 1];
      AppendsAreLinear(init);
      ExtendKeepsAmortised(ExtendAll(Meter(0, 0, 0), init), ns[|ns| - 1]);
    }
  }

  /** From 2^24 / 3 on the float product need not be the floor of 3E/2 any more. */
  lemma GrownRounds()
    ensures Grown(5592409) == 3 * 5592409 / 2 + 1
  {
    assert Ulp(16777227, 1) == Ulp(16777227, 2) == 2;
    assert ToFloat(5592409) == 5592409;
  }
}
