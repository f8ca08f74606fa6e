/** The retry delay of the plugin loading pipeline: exponential, saturating, with a deterministic jitter. */
module Backoff {
  import opened Decimal
  import opened Powers

  function Saturate(n: nat): (r: nat)
    ensures r <= U64_MAX
  {
    if n > U64_MAX then U64_MAX else n
  }

  function Shift(retry: nat): nat {
    Pow2(if retry < 10 then retry else 10)
  }

  /** The saturated value of base * 2^min(retry, 10). */
  function Exponential(retry: nat, base: nat): nat {
    Saturate(base * Shift(retry))
  }

  function Seed(retry: nat): nat {
    (retry * 1103515245 % (U64_MAX + 1) + 12345) % (U64_MAX + 1)
  }

  function Delay(retry: nat, base: nat): nat {
    var e := Exponential(retry, base);
    var jitter := if e / 4 > 1 then e / 4 else 1;
    Saturate(e + Seed(retry) % jitter)
  }

  lemma DelayBounds(retry: nat, base: nat)
    ensures var e := Exponential(retry, base); e <= Delay(retry, base) <= Saturate(e + e / 4)
  {
    var e := Exponential(retry, base);
    var jitter := if e / 4 > 1 then e / 4 else 1;
    assert Seed(retry) % jitter < jitter;
    assert jitter == 1 ==> Seed(retry) % jitter == 0;
  }

  lemma ShiftDoubles(retry: nat)
    requires retry < 10
    ensures Shift(retry + 1) == 2 * Shift(retry)
  {
  }

  /** Each of the first ten retries waits at least as long as the one before, whatever the base, and longer as long
      as the base is positive and the doubled delay still fits. */
  lemma DelayGrows(retry: nat, base: nat)
    requires retry < 10 && base <= U64_MAX
    ensures Delay(retry, base) <= Delay(retry + 1, base)
    ensures base > 0 && base * Shift(retry + 1) <= U64_MAX ==> Delay(retry, base) < Delay(retry + 1, base)
  {
    ShiftDoubles(retry);
    var p := base * Shift(retry);
    assert base * Shift(retry + 1) == 2 * p by {
      assert base * (2 * Shift(retry)) == 2 * (base * Shift(retry));
    }
    Pow2Monotone(0, retry);
    assert base > 0 ==> p > 0;
    DelayBounds(retry, base);
    DelayBounds(retry + 1, base);
    Steps(p, Delay(retry, base), Delay(retry + 1, base));
  }

  lemma Steps(p: nat, d: nat, d': nat)
    requires d <= Saturate(Saturate(p) + Saturate(p) / 4) && Saturate(2 * p) <= d'
    ensures d <= d' && (p > 0 && 2 * p <= U64_MAX ==> d < d')
  {
  }

  /** In the terms of its arguments: with p = base * 2^min(retry, 10), the delay is p and a jitter below a quarter of p,
      read off the linear congruential seed, as long as that fits into 64 bits; and the largest number once p does
      not. */
  lemma DelayMeans(retry: nat, base: nat)
    ensures var p := base * Pow2(if retry < 10 then retry else 10);
      && (p > U64_MAX ==> Delay(retry, base) == U64_MAX)
      && (p + p / 4 <= U64_MAX && p < 8 ==> Delay(retry, base) == p)
      && (p + p / 4 <= U64_MAX && p >= 8 ==>
            p <= Delay(retry, base) < p + p / 4 &&
            Delay(retry, base) - p == (retry * 1103515245 + 12345) % (U64_MAX + 1) % (p / 4))
  {
    var p := base * Pow2(if retry < 10 then retry else 10);
    assert Exponential(retry, base) == Saturate(p);
    SeedMeans(retry);
    if p < 8 {
      assert Seed(retry) % 1 == 0;
    } else {
      assert Seed(retry) % (p / 4) < p / 4;
    }
  }

  lemma SeedMeans(retry: nat)
    ensures Seed(retry) == (retry * 1103515245 + 12345) % (U64_MAX + 1)
  {
    var x := retry * 1103515245;
    assert x == x / (U64_MAX + 1) * (U64_MAX + 1) + x % (U64_MAX + 1);
  }
}
