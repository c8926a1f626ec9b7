/**
 * The few Python string built-ins the validators rely on: `str.lower`,
 * `str.rfind`, `str.join` and `str(int)`, over strings as `seq<char>`.
 */
module Strings {
  import opened Wrappers

  predicate IsUpper(c: char) { 'A' <= c <= 'Z' }

  /** `str.lower` on one character; only the ASCII letters A-Z change. */
  function LowerChar(c: char): (r: char)
    ensures !IsUpper(r)
    ensures !IsUpper(c) ==> r == c
    ensures IsUpper(c) ==> 'a' <= r <= 'z' && r as int - c as int == 32
  {
    if IsUpper(c) then (c as int + 32) as char else c
  }

  predicate IsLowerCase(s: string) {
    forall k :: 0 <= k < |s| ==> !IsUpper(s[k])
  }

  /** `str.lower`: maps every character, position by position. */
  function Lower(s: string): (r: string)
    ensures |r| == |s|
    ensures forall k :: 0 <= k < |s| ==> r[k] == LowerChar(s[k])
  {
    if s == [] then [] else [LowerChar(s[0])] + Lower(s[1..])
  }

  /** Lower-casing yields a string without upper-case letters, and doing it twice changes nothing. */
  lemma LowerIsLowerAndIdempotent(s: string)
    ensures IsLowerCase(Lower(s))
    ensures Lower(Lower(s)) == Lower(s)
  {
  }

  /**
   * `s.rfind(c)`: the index of the last occurrence of `c` in `s`, or -1
   * when `c` does not occur.
   */
  function LastIndexOf(s: string, c: char): (i: int)
    ensures -1 <= i < |s|
    ensures i >= 0 ==> s[i] == c
    ensures forall k :: i < k < |s| ==> s[k] != c
  {
    if s == [] then -1
    else if s[|s| - 1] == c then |s| - 1
    else LastIndexOf(s[..|s| - 1], c)
  }

  /**
   * Lower-casing neither creates nor removes a character that is not a
   * letter (such as '.' or '/'), so its last occurrence stays put.
   */
  lemma LastIndexOfLower(s: string, c: char)
    requires !IsUpper(c) && !('a' <= c <= 'z')
    ensures LastIndexOf(Lower(s), c) == LastIndexOf(s, c)
  {
  }

  /** `sep.join(parts)`. */
  function Join(sep: string, parts: seq<string>): (r: string)
    ensures parts == [] ==> r == ""
    ensures |parts| == 1 ==> r == parts[0]
    ensures |parts| > 1 ==> parts[0] + sep <= r
    ensures |parts| > 0 ==> |r| == TotalLength(parts) + |sep| * (|parts| - 1)
  {
    if parts == [] then ""
    else if |parts| == 1 then parts[0]
    else parts[0] + sep + Join(sep, parts[1..])
  }

  function TotalLength(parts: seq<string>): nat {
    if parts == [] then 0 else |parts[0]| + TotalLength(parts[1..])
  }

  predicate IsDigit(c: char) { '0' <= c <= '9' }

  predicate AllDigits(s: string) {
    forall k :: 0 <= k < |s| ==> IsDigit(s[k])
  }

  function DigitChar(d: nat): (c: char)
    requires d < 10
    ensures IsDigit(c) && c as int - '0' as int == d
  {
    ('0' as int + d) as char
  }

  /** `str(n)` for a non-negative integer: decimal digits without leading zeros. */
  function NatToDecimal(n: nat): (s: string)
    ensures |s| >= 1 && AllDigits(s)
    ensures |s| > 1 ==> s[0] != '0'
  {
    if n < 10 then [DigitChar(n)] else NatToDecimal(n / 10) + [DigitChar(n % 10)]
  }

  /** `str(i)` for any Python integer: a minus sign before the digits of a negative one. */
  function IntToDecimal(i: int): (s: string)
    ensures i < 0 <==> (|s| > 0 && s[0] == '-')
  {
    if i < 0 then "-" + NatToDecimal(-i) else NatToDecimal(i)
  }

  /** The value of a string of decimal digits (the inverse direction of `NatToDecimal`). */
  function DigitsValue(s: string): nat
    requires AllDigits(s)
  {
    if s == [] then 0
    else DigitsValue(s[..|s| - 1]) * 10 + (s[|s| - 1] as int - '0' as int)
  }

  /** `int(s)` restricted to an optional '-' followed by at least one digit. */
  function ParseDecimal(s: string): (r: Option<int>)
    ensures r.Some? ==> |s| > 0
  {
    if |s| > 1 && s[0] == '-' && AllDigits(s[1..]) then var v: int := DigitsValue(s[1..]); Some(-v)
    else if |s| > 0 && AllDigits(s) then Some(DigitsValue(s))
    else None
  }

  lemma {:induction false} NatToDecimalRoundTrip(n: nat)
    ensures DigitsValue(NatToDecimal(n)) == n
  {
    if n >= 10 {
      NatToDecimalRoundTrip(n / 10);
      var s := NatToDecimal(n);
      assert s[..|s| - 1] == NatToDecimal(n / 10);
    }
  }

  /** Reading back the decimal text of any integer gives that integer. */
  lemma IntToDecimalRoundTrip(i: int)
    ensures ParseDecimal(IntToDecimal(i)) == Some(i)
  {
    if i < 0 {
      NatToDecimalRoundTrip(-i);
      assert IntToDecimal(i)[1..] == NatToDecimal(-i);
    } else {
      NatToDecimalRoundTrip(i);
    }
  }
}
