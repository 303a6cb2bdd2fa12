/** The port number of an authority: the decimal text after the `:` and the
    integer it denotes (Python's `int()` on that text, restricted to plain
    ASCII digits), and the rendering of a number as decimal text, which
    parsing undoes (`080` shows the converse does not hold). */
module Decimal {
  import opened Wrappers

  predicate IsDigit(c: char)
  {
    '0' <= c <= '9'
  }

  predicate AllDigits(s: string)
  {
    forall i :: 0 <= i < |s| ==> IsDigit(s[i])
  }

  /** Text that `int()` accepts in this model: one or more decimal digits. */
  predicate IsDecimal(s: string)
  {
    |s| > 0 && AllDigits(s)
  }

  function DigitValue(c: char): (d: nat)
    requires IsDigit(c)
    ensures d < 10
  {
    (c as int) - ('0' as int)
  }

  function DigitChar(d: nat): (c: char)
    requires d < 10
    ensures IsDigit(c) && DigitValue(c) == d
  {
    (('0' as int) + d) as char
  }

  /** The number a string of digits denotes, most significant digit first. */
  function DecimalValue(s: string): nat
    requires AllDigits(s)
    decreases |s|
  {
    if |s| == 0 then 0
    else 10 * DecimalValue(s[..|s| - 1]) + DigitValue(s[|s| - 1])
  }

  /** `int(text)` on the port text: a number for a non-empty run of digits
      (leading zeros allowed), a failure for anything else, the empty text
      included. There is no range check. */
  function ParsePort(text: string): (r: Option<nat>)
    ensures r.Some? <==> IsDecimal(text)
    ensures r.Some? ==> r.value == DecimalValue(text)
  {
    if IsDecimal(text) then Some(DecimalValue(text)) else None
  }

  /** Shortest decimal text of `n`. */
  function ToDecimal(n: nat): (s: string)
    ensures IsDecimal(s)
    ensures |s| > 1 ==> s[0] != '0'
    decreases n
  {
    if n < 10 then [DigitChar(n)]
    else ToDecimal(n / 10) + [DigitChar(n % 10)]
  }

  /** Reading back a rendered number gives the number. */
  lemma {:induction false} DecimalRoundTrip(n: nat)
    ensures ParsePort(ToDecimal(n)) == Some(n)
    decreases n
  {
    var s := ToDecimal(n);
    if n >= 10 {
      DecimalRoundTrip(n / 10);
      assert s[..|s| - 1] == ToDecimal(n / 10);
      assert DecimalValue(s) == 10 * (n / 10) + n % 10;
    }
  }
}
