/** The random number generator `random` of etherboot/core/xbox_misc.c, which multiplies without
    overflow by splitting the modulus (Schrage's method). */
module Random {
  const M: int := 2147483563        // the modulus
  const A: int := 40014             // the multiplier
  const Q: int := 53668             // M / A
  const R: int := 12211             // M % A
  const INVERSE: int := 2082061899  // A * INVERSE == 1 + M * 38795

  predicate Int32(x: int) { -0x8000_0000 <= x < 0x8000_0000 }

  /** Division by Q as C does it, truncating toward zero. */
  function Quotient(x: int): int {
    if x >= 0 then x / Q else -((-x) / Q)
  }

  /** The value `random` gives to the seed after `seed`. */
  function Step(seed: int): int {
    var q := Quotient(seed);
    var v := A * (seed - Q * q) - R * q;
    if v < 0 then v + M else v
  }

  /** None of the products and sums leaves the range of an `int32_t`. */
  predicate NoOverflow(seed: int) {
    var q := Quotient(seed);
    && Int32(q) && Int32(Q * q) && Int32(seed - Q * q) && Int32(A * (seed - Q * q)) && Int32(R * q)
    && Int32(A * (seed - Q * q) - R * q) && Int32(Step(seed))
  }

  lemma {:induction false} ModIs(x: int, k: int, r: int)
    requires x == r + M * k && 0 <= r < M
    ensures x % M == r
  {
  }

  /** For every seed that an `int32_t` can hold, the split multiplication is multiplication by A
      modulo M, and does not overflow. */
  lemma {:induction false} StepMultiplies(seed: int)
    requires Int32(seed)
    ensures NoOverflow(seed)
    ensures 0 <= Step(seed) < M && Step(seed) == A * seed % M
  {
    var q := Quotient(seed);
    var rem := seed - Q * q;
    assert -40014 <= q <= 40014 && -Q < rem < Q;
    assert seed >= 0 ==> rem >= 0 && q >= 0;
    assert seed <= 0 ==> rem <= 0 && q <= 0;
    var v := A * rem - R * q;
    assert A * seed == v + M * q;
    ModIs(A * seed, if v < 0 then q - 1 else q, Step(seed));
  }

  /** A seed whose product with A is a multiple of the modulus is one itself. */
  lemma {:induction false} MultipleOfModulus(seed: int, k: int)
    requires A * seed == M * k
    ensures seed == M * (INVERSE * k - 38795 * seed)
  {
    assert INVERSE * (A * seed) == INVERSE * (M * k);
  }

  lemma {:induction false} MultipleInRange(seed: int, m: int)
    requires Int32(seed) && seed == M * m
    ensures seed == 0 || seed == M || seed == -M
  {
  }

  /** The generator falls into the state 0, from which it starts afresh, only from a multiple of
      the modulus. */
  lemma {:induction false} ZeroOnlyFromZero(seed: int)
    requires Int32(seed)
    ensures Step(seed) == 0 <==> seed == 0 || seed == M || seed == -M
  {
    StepMultiplies(seed);
    if Step(seed) == 0 {
      var k := A * seed / M;
      assert A * seed == M * k;
      MultipleOfModulus(seed, k);
      MultipleInRange(seed, INVERSE * k - 38795 * seed);
    }
  }

  /** The seed before `r`. */
  function Back(r: int): int { INVERSE * r % M }

  /** Each step can be undone, so the generator permutes the numbers below M. */
  lemma {:induction false} StepIsInvertible(seed: int)
    requires 0 < seed < M
    ensures 0 < Step(seed) < M && Back(Step(seed)) == seed
    ensures 0 <= Back(seed) < M && Step(Back(seed)) == seed
  {
    StepMultiplies(seed);
    ZeroOnlyFromZero(seed);
    var k := A * seed / M;
    assert Step(seed) == A * seed - M * k;
    ModIs(INVERSE * Step(seed), 38795 * seed - INVERSE * k, seed);
    var b, j := Back(seed), INVERSE * seed / M;
    assert b == INVERSE * seed - M * j;
    StepMultiplies(b);
    ModIs(A * b, 38795 * seed - A * j, seed);
  }

  /** The seed after `n` steps. */
  function After(seed: int, n: nat): int {
    if n == 0 then seed else Step(After(seed, n - 1))
  }

  function Power(n: nat): nat {
    if n == 0 then 1 else A * Power(n - 1)
  }

  /** Reducing before or after multiplying makes no difference. */
  lemma {:induction false} Reduced(p: int, s: int, k: int, j: int, r: int)
    requires p == s + M * k && A * s == r + M * j && 0 <= r < M
    ensures A * p % M == r
  {
    assert A * (M * k) == M * (A * k);
    ModIs(A * p, A * k + j, r);
  }

  lemma {:induction false} PowerStep(n: nat, seed: int)
    ensures Power(n + 1) * seed == A * (Power(n) * seed)
  {
  }

  /** A whole run: the seed stays in range, is never 0, and is the start times a power of A. */
  lemma {:induction false} RunStays(seed: int, n: nat)
    requires 0 < seed < M
    ensures 0 < After(seed, n) < M && After(seed, n) == Power(n) * seed % M
  {
    if n == 0 {
      ModIs(seed, 0, seed);
    } else {
      RunStays(seed, n - 1);
      var s, p := After(seed, n - 1), Power(n - 1) * seed;
      StepIsInvertible(s);
      StepMultiplies(s);
      PowerStep(n - 1, seed);
      var k, j := p / M, A * s / M;
      assert p == s + M * k && A * s == After(seed, n) + M * j;
      Reduced(p, s, k, j, After(seed, n));
    }
  }

  /** Two runs that meet have been the same from the start. */
  lemma {:induction false} RunsDoNotMerge(s: int, t: int, n: nat)
    requires 0 < s < M && 0 < t < M
    ensures After(s, n) == After(t, n) ==> s == t
  {
    if n > 0 && After(s, n) == After(t, n) {
      RunStays(s, n - 1);
      RunStays(t, n - 1);
      StepIsInvertible(After(s, n - 1));
      StepIsInvertible(After(t, n - 1));
      RunsDoNotMerge(s, t, n - 1);
    }
  }

  class Generator {
    var seed: int

    constructor ()
      ensures seed == 0
    {
      seed := 0;
    }

    /** `random`; `start` is what the clock and the network address give for a first seed. */
    method Next(start: int) returns (r: int)
      requires Int32(seed) && Int32(start)
      modifies this
      ensures r == seed && 0 <= seed < M
      ensures r == A * (if old(seed) == 0 then start else old(seed)) % M
      ensures old(seed) != 0 && -M < old(seed) < M ==> seed != 0
    {
      if seed == 0 { seed := start; }
      StepMultiplies(seed);
      ZeroOnlyFromZero(seed);
      var q := Quotient(seed);
      seed := A * (seed - Q * q) - R * q;
      if seed < 0 { seed := seed + M; }
      return seed;
    }

    /** Drawing `n` numbers from a seed in range never reinitialises the generator. */
    method Draw(n: nat, start: int) returns (drawn: seq<int>)
      requires 0 < seed < M && Int32(start)
      modifies this
      ensures |drawn| == n && seed == After(old(seed), n)
      ensures forall i :: 0 <= i < n ==> drawn[i] == Power(i + 1) * old(seed) % M && 0 < drawn[i] < M
    {
      drawn := [];
      while |drawn| < n
        invariant |drawn| <= n && seed == After(old(seed), |drawn|) && 0 < seed < M
        invariant forall i :: 0 <= i < |drawn| ==> drawn[i] == Power(i + 1) * old(seed) % M && 0 < drawn[i] < M
      {
        StepMultiplies(seed);
        RunStays(old(seed), |drawn| + 1);
        var r := Next(start);
        drawn := drawn + [r];
      }
    }
  }
}
