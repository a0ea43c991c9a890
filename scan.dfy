/** scan_u32_n: read an unsigned decimal number at the start of a text. The source
    delegates to std::from_chars or strtoul; here the contract is a pure function that
    takes the longest run of decimal digits. */
module Scan {
  import opened PrintTypes

  predicate IsDigit(c: char) {
    '0' <= c <= '9'
  }

  predicate AllDigits(s: string) {
    forall i :: 0 <= i < |s| ==> IsDigit(s[i])
  }

  /** Length of the longest prefix of `s` made of decimal digits. */
  function DigitRun(s: string): (n: nat)
    ensures n <= |s|
    ensures AllDigits(s[..n])
    ensures n < |s| ==> !IsDigit(s[n])
  {
    if |s| > 0 && IsDigit(s[0]) then
      var n := 1 + DigitRun(s[1..]);
      assert s[..n] == [s[0]] + s[1..][..n - 1];
      n
    else 0
  }

  function DigitValue(c: char): nat
    requires IsDigit(c)
  {
    c as int - '0' as int
  }

  /** The number a digit string denotes, most significant digit first. */
  function DecimalValue(s: string): nat
    requires AllDigits(s)
  {
    if s == [] then 0 else 10 * DecimalValue(s[..|s| - 1]) + DigitValue(s[|s| - 1])
  }

  datatype Scanned = Scanned(value: nat, count: nat)

  /** scan_u32_n with base 10: success with the value and the number of characters
      consumed when the text starts with a digit, failure otherwise. */
  function ScanDecimal(s: string): (r: Option<Scanned>)
    ensures r.Some? <==> |s| > 0 && IsDigit(s[0])
    ensures r.Some? ==> 1 <= r.value.count <= |s| && AllDigits(s[..r.value.count])
    ensures r.Some? ==> r.value.count == |s| || !IsDigit(s[r.value.count])
    ensures r.Some? ==> r.value.value == DecimalValue(s[..r.value.count])
  {
    var n := DigitRun(s);
    if n == 0 then None else Some(Scanned(DecimalValue(s[..n]), n))
  }

  function DigitChar(d: nat): (c: char)
    requires d < 10
    ensures IsDigit(c) && DigitValue(c) == d
  {
    ('0' as int + d) as char
  }

  /** The shortest decimal text of a number: the reference the scanner is checked against. */
  function DecimalText(n: nat): (s: string)
    ensures |s| >= 1 && AllDigits(s)
  {
    if n < 10 then [DigitChar(n)] else DecimalText(n / 10) + [DigitChar(n % 10)]
  }

  lemma {:induction false} DecimalTextValue(n: nat)
    ensures DecimalValue(DecimalText(n)) == n
  {
    if n >= 10 {
      var s := DecimalText(n);
      assert s[..|s| - 1] == DecimalText(n / 10);
      DecimalTextValue(n / 10);
    }
  }

  /** Reading back the decimal text of `n`, followed by anything that is not a digit,
      yields `n` and consumes exactly its digits. */
  lemma ScanDecimalText(n: nat, rest: string)
    requires rest == [] || !IsDigit(rest[0])
    ensures ScanDecimal(DecimalText(n) + rest) == Some(Scanned(n, |DecimalText(n)|))
  {
    var d := DecimalText(n);
    var s := d + rest;
    assert s[..|d|] == d;
    var r := ScanDecimal(s);
    assert r.Some? by { assert s[0] == d[0]; }
    if |d| < |s| {
      assert s[|d|] == rest[0];
    }
    assert forall i :: 0 <= i < |d| ==> s[i] == d[i];
    DecimalTextValue(n);
  }
}
