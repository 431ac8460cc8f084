/**
 * Decimal digit strings and the natural numbers they denote.
 * Used for JavaScript's `Number(...)`/`toString()` on integers that fit
 * exactly into a double, and for the numeric suffix of tuple keys.
 */
module Decimal {

  predicate IsDigit(c: char) {
    '0' <= c <= '9'
  }

  predicate AllDigits(s: string) {
    forall i :: 0 <= i < |s| ==> IsDigit(s[i])
  }

  function DigitValue(c: char): (d: nat)
    requires IsDigit(c)
    ensures d < 10
  {
    c as int - '0' as int
  }

  function DigitChar(d: nat): (c: char)
    requires d < 10
    ensures IsDigit(c) && DigitValue(c) == d
  {
    ('0' as int + d) as char
  }

  /** The value of a string of decimal digits, most significant first (leading zeros allowed). */
  function Value(s: string): nat
    requires AllDigits(s)
  {
    if s == [] then 0 else Value(s[..|s| - 1]) * 10 + DigitValue(s[|s| - 1])
  }

  /** The canonical form: at least one digit, and no leading zero unless the number is zero. */
  predicate Canonical(s: string) {
    |s| >= 1 && AllDigits(s) && (s[0] == '0' ==> |s| == 1)
  }

  /** `n.toString()` for a natural number: its canonical decimal form. */
  function Render(n: nat): (s: string)
    ensures Canonical(s) && Value(s) == n
    ensures s[0] == '0' <==> n == 0
  {
    if n < 10 then [DigitChar(n)]
    else
      var p := Render(n / 10);
      var s := p + [DigitChar(n % 10)];
      assert s[..|s| - 1] == p;
      s
  }

  /** Every canonical digit string is the rendering of its own value. */
  lemma {:induction false} RenderValue(s: string)
    requires Canonical(s)
    ensures Render(Value(s)) == s
  {
    if |s| == 1 {
      assert s == [DigitChar(DigitValue(s[0]))];
    } else {
      var p := s[..|s| - 1];
      assert Canonical(p);
      RenderValue(p);
      var d := DigitValue(s[|s| - 1]);
      assert Value(p) != 0;
      assert Value(s) == Value(p) * 10 + d;
      assert Value(s) / 10 == Value(p) && Value(s) % 10 == d;
      assert s == p + [DigitChar(d)];
    }
  }
}
