/** Lower-case base16, section 8 of RFC 4648, as the `hex` crate writes and reads it. */
module Hex {
  import opened Wrappers

  type Byte = b: nat | b < 256

  function Digit(d: nat): (c: char)
    requires d < 16
  {
    if d < 10 then ('0' as int + d) as char else ('a' as int + d - 10) as char
  }

  /** Both cases are accepted when reading. */
  function DigitValue(c: char): Option<nat> {
    if '0' <= c <= '9' then Some(c as int - '0' as int)
    else if 'a' <= c <= 'f' then Some(c as int - 'a' as int + 10)
    else if 'A' <= c <= 'F' then Some(c as int - 'A' as int + 10)
    else None
  }

  function Lower(c: char): char {
    if 'A' <= c <= 'F' then (c as int - 'A' as int + 'a' as int) as char else c
  }

  function Encode(bytes: seq<Byte>): string {
    if bytes == [] then [] else [Digit(bytes[0] / 16), Digit(bytes[0] % 16)] + Encode(bytes[1..])
  }

  function Decode(s: string): Option<seq<Byte>>
    decreases |s|
  {
    if s == [] then Some([])
    else if |s| == 1 then None
    else
      var hi, lo, rest := DigitValue(s[0]), DigitValue(s[1]), Decode(s[2..]);
      if hi.None? || lo.None? || rest.None? then None else Some([Join(hi.value, lo.value)] + rest.value)
  }

  function Join(hi: nat, lo: nat): Byte {
    if hi < 16 && lo < 16 then hi * 16 + lo else 0
  }

  lemma DigitRoundTrip(d: nat)
    requires d < 16
    ensures DigitValue(Digit(d)) == Some(d) && Digit(d) != ':'
  {
  }

  lemma {:induction false} DecodeEncode(bytes: seq<Byte>)
    ensures Decode(Encode(bytes)) == Some(bytes)
    ensures ':' !in Encode(bytes)
    decreases |bytes|
  {
    if bytes != [] {
      var b, s := bytes[0], Encode(bytes);
      DecodeEncode(bytes[1..]);
      DigitRoundTrip(b / 16);
      DigitRoundTrip(b % 16);
      assert s[2..] == Encode(bytes[1..]);
      assert bytes == [b] + bytes[1..];
    }
  }

  const DIGITS := "0123456789abcdef"

  /** Byte by byte, the high half first. */
  lemma {:induction false} EncodeAt(bytes: seq<Byte>, i: nat)
    requires i < |bytes|
    ensures |Encode(bytes)| == 2 * |bytes|
    ensures Encode(bytes)[2 * i] == DIGITS[bytes[i] / 16] && Encode(bytes)[2 * i + 1] == DIGITS[bytes[i] % 16]
    decreases |bytes|
  {
    if i > 0 {
      EncodeAt(bytes[1..], i - 1);
    } else if |bytes| > 1 {
      EncodeAt(bytes[1..], 0);
    }
  }

  lemma DigitOfValue(c: char)
    requires DigitValue(c).Some?
    ensures DigitValue(c).value < 16 && Digit(DigitValue(c).value) == Lower(c)
  {
  }

  /** Whatever decodes is, up to letter case, the encoding of what it decodes to. */
  lemma {:induction false} EncodeDecode(s: string)
    requires Decode(s).Some?
    ensures var e := Encode(Decode(s).value); |e| == |s| && forall i :: 0 <= i < |s| ==> e[i] == Lower(s[i])
    decreases |s|
  {
    if s != [] {
      EncodeDecode(s[2..]);
      DigitOfValue(s[0]);
      DigitOfValue(s[1]);
      var bytes, e, rest := Decode(s).value, Encode(Decode(s).value), Decode(s[2..]).value;
      assert bytes[1..] == rest;
      assert e == [Lower(s[0]), Lower(s[1])] + Encode(rest);
      forall i | 0 <= i < |s|
        ensures e[i] == Lower(s[i])
      {
        if i >= 2 {
          assert s[i] == s[2..][i - 2];
        }
      }
    }
  }
}
