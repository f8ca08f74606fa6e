/** Unsigned decimal text, as Rust's integer `Display` and `FromStr` treat it. */
module Decimal {
  import opened Wrappers

  const U64_MAX: nat := 0xFFFF_FFFF_FFFF_FFFF
  const U32_MAX: nat := 0xFFFF_FFFF

  predicate IsDigit(c: char) {
    '0' <= c <= '9'
  }

  function DigitValue(c: char): (d: nat)
    requires IsDigit(c)
    ensures d < 10
  {
    c as int - '0' as int
  }

  function DigitChar(d: nat): (c: char)
    requires d < 10
    ensures IsDigit(c) && DigitValue(c) == d
  {
    ('0' as int + d) as char
  }

  predicate AllDigits(s: string) {
    forall i :: 0 <= i < |s| ==> IsDigit(s[i])
  }

  function Value(s: string): nat
    requires AllDigits(s)
  {
    if s == [] then 0 else Value(s[..|s| - 1]) * 10 + DigitValue(s[|s| - 1])
  }

  function Print(n: nat): (s: string)
    ensures s != [] && AllDigits(s)
    ensures Value(s) == n
  {
    if n < 10 then
      assert [DigitChar(n)][..0] == [];
      [DigitChar(n)]
    else
      var front := Print(n / 10);
      var s := front + [DigitChar(n % 10)];
      assert s[..|s| - 1] == front;
      s
  }

  /** Accepts one optional leading '+', then at least one digit, and refuses values above `max`. */
  function ParseUnsigned(s: string, max: nat): Option<nat> {
    var body := if |s| > 0 && s[0] == '+' then s[1..] else s;
    if body != [] && AllDigits(body) && Value(body) <= max then Some(Value(body)) else None
  }

  lemma ParsePrint(n: nat, max: nat)
    ensures ParseUnsigned(Print(n), max) == if n <= max then Some(n) else None
  {
    assert IsDigit(Print(n)[0]);
  }

  /** What parses, and to what: digits, with or without one plus sign before them. */
  lemma ParseIff(s: string, max: nat, n: nat)
    ensures ParseUnsigned(s, max) == Some(n) <==>
            exists digits :: (s == digits || s == "+" + digits) && digits != [] && AllDigits(digits) &&
              Value(digits) == n && n <= max
  {
    if ParseUnsigned(s, max) == Some(n) {
      var digits := if |s| > 0 && s[0] == '+' then s[1..] else s;
      assert s == digits || s == "+" + digits;
    }
    if digits :| (s == digits || s == "+" + digits) && digits != [] && AllDigits(digits) && Value(digits) == n <= max {
      assert IsDigit(digits[0]);
      assert s == "+" + digits ==> s[0] == '+' && s[1..] == digits;
    }
  }

  /** The most significant digit comes first. */
  lemma {:induction false} ValueOfConcat(a: string, b: string)
    requires AllDigits(a) && AllDigits(b)
    ensures AllDigits(a + b) && Value(a + b) == Value(a) * Pow10(|b|) + Value(b)
    decreases |b|
  {
    if b == [] {
      assert a + b == a;
    } else {
      var front := b[..|b| - 1];
      ValueOfConcat(a, front);
      assert (a + b)[..|a + b| - 1] == a + front && (a + b)[|a + b| - 1] == b[|b| - 1];
      TenTimes(Value(a), Pow10(|front|));
    }
  }

  lemma TenTimes(v: nat, p: nat)
    ensures v * (10 * p) == 10 * (v * p)
  {
  }

  function Pow10(n: nat): nat {
    if n == 0 then 1 else 10 * Pow10(n - 1)
  }

  /** Cutting digits off the end of a number never makes it larger. */
  lemma {:induction false} PrefixIsSmaller(s: string, k: nat)
    requires AllDigits(s) && k <= |s|
    ensures Value(s[..k]) <= Value(s)
    decreases |s|
  {
    if k == |s| {
      assert s[..k] == s;
    } else {
      var front := s[..|s| - 1];
      PrefixIsSmaller(front, k);
      assert front[..k] == s[..k];
    }
  }
}
