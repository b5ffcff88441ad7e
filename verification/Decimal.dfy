// Decimal text: `to_string` of an integer and Rust's integer `parse`.
module Decimal {
  import opened Common

  predicate IsDigit(c: char) { '0' <= c <= '9' }

  function DigitChar(d: int): (c: char)
    requires 0 <= d < 10
    ensures IsDigit(c) && c as int - '0' as int == d
  {
    ('0' as int + d) as char
  }

  predicate AllDigits(s: string) {
    forall i :: 0 <= i < |s| ==> IsDigit(s[i])
  }

  function PrintNat(n: nat): (s: string)
    ensures |s| > 0 && AllDigits(s)
    decreases n
  {
    if n < 10 then [DigitChar(n)] else PrintNat(n / 10) + [DigitChar(n % 10)]
  }

  function Print(n: int): (s: string)
    ensures |s| > 0
  {
    if n < 0 then "-" + PrintNat(-n) else PrintNat(n)
  }

  function PrintAll(ns: seq<int>): (r: seq<string>)
    ensures |r| == |ns| && forall i :: 0 <= i < |r| ==> r[i] == Print(ns[i])
  {
    seq(|ns|, i requires 0 <= i < |ns| => Print(ns[i]))
  }

  // The value of a digit string, read left to right.
  function NatValue(s: string): (n: nat)
    requires AllDigits(s)
  {
    if |s| == 0 then 0 else 10 * NatValue(s[..|s| - 1]) + (s[|s| - 1] as int - '0' as int)
  }

  // `str::parse` for an integer type with the given bounds: an optional `+`, an
  // optional `-` for signed types, at least one digit, and a value in range.
  function ParseInt(s: string, lo: int, hi: int): (r: Option<int>)
    ensures r.Some? ==> lo <= r.value <= hi
  {
    var minus := |s| > 0 && s[0] == '-' && lo < 0;
    var digits := if minus || (|s| > 0 && s[0] == '+') then s[1..] else s;
    if |digits| == 0 || !AllDigits(digits) then None
    else
      var v: int := if minus then -(NatValue(digits) as int) else NatValue(digits);
      if lo <= v <= hi then Some(v) else None
  }

  lemma {:induction false} NatRoundTrip(n: nat)
    ensures NatValue(PrintNat(n)) == n
    decreases n
  {
    if n >= 10 {
      NatRoundTrip(n / 10);
      assert PrintNat(n)[..|PrintNat(n)| - 1] == PrintNat(n / 10);
    }
  }

  // Printing then parsing is the identity on every integer of the type.
  lemma ParsePrint(n: int, lo: int, hi: int)
    requires lo <= n <= hi
    ensures ParseInt(Print(n), lo, hi) == Some(n)
  {
    if n < 0 {
      NatRoundTrip(-n);
      assert Print(n)[1..] == PrintNat(-n);
    } else {
      NatRoundTrip(n);
      assert IsDigit(PrintNat(n)[0]);
    }
  }

  lemma PrintChars(n: int)
    ensures forall i :: 0 <= i < |Print(n)| ==> IsDigit(Print(n)[i]) || Print(n)[i] == '-'
  {}
}
