/** Text helpers standing in for the Java library calls the colour generator
    relies on: `Integer.toString` (what `String.format("%s", …)` prints for an
    `Integer` argument) and `Integer.parseInt(…, 16)`. */
module Text {
  import opened Wrappers

  // ---------------------------------------------------------------------------
  // Decimal digits
  // ---------------------------------------------------------------------------

  predicate IsDigit(c: char) {
    '0' <= c <= '9'
  }

  predicate AllDigits(s: string) {
    forall i :: 0 <= i < |s| ==> IsDigit(s[i])
  }

  function DigitChar(d: nat): (c: char)
    requires d < 10
    ensures IsDigit(c) && c as int - '0' as int == d
  {
    (d + '0' as int) as char
  }

  function DigitValue(c: char): (d: nat)
    requires IsDigit(c)
    ensures d < 10 && DigitChar(d) == c
  {
    c as int - '0' as int
  }

  /** The strings `Integer.toString` produces for a non-negative value:
      at least one digit, digits only, and no leading zero. */
  predicate IsCanonicalDec(s: string) {
    |s| >= 1 && AllDigits(s) && (s[0] == '0' ==> |s| == 1)
  }

  /** Decimal rendering of a natural number, most significant digit first. */
  function Dec(n: nat): (s: string)
    ensures IsCanonicalDec(s)
    ensures |s| == 1 <==> n < 10
    decreases n
  {
    if n < 10 then [DigitChar(n)] else Dec(n / 10) + [DigitChar(n % 10)]
  }

  /** `Integer.toString(v)`: a minus sign for negative values, then the digits. */
  function IntString(v: int): (s: string)
    ensures v >= 0 ==> s == Dec(v)
    ensures v < 0 ==> |s| > 1 && s[0] == '-' && s[1..] == Dec(-v)
  {
    if v < 0 then "-" + Dec(-v) else Dec(v)
  }

  /** The number a string of decimal digits denotes, most significant first. */
  function DigitsValue(s: string): nat
    requires AllDigits(s)
  {
    if s == [] then 0 else DigitsValue(s[..|s| - 1]) * 10 + DigitValue(s[|s| - 1])
  }

  /** Reads back a decimal rendering; only canonical renderings are accepted. */
  function ParseDec(s: string): Option<nat>
  {
    if IsCanonicalDec(s) then Some(DigitsValue(s)) else None
  }

  /** Reading a rendering back gives the number rendered. */
  lemma {:induction false} DecValue(n: nat)
    ensures DigitsValue(Dec(n)) == n
    decreases n
  {
    if n >= 10 {
      var s := Dec(n);
      assert s[..|s| - 1] == Dec(n / 10);
      DecValue(n / 10);
    }
  }

  /** A digit string with a non-zero leading digit denotes a positive number. */
  lemma {:induction false} LeadingDigitPositive(s: string)
    requires |s| >= 1 && AllDigits(s) && s[0] != '0'
    ensures DigitsValue(s) >= 1
    decreases |s|
  {
    if |s| > 1 {
      LeadingDigitPositive(s[..|s| - 1]);
    }
  }

  /** Rendering the value of a canonical digit string gives that string back. */
  lemma {:induction false} DecOfValue(s: string)
    requires IsCanonicalDec(s)
    ensures Dec(DigitsValue(s)) == s
    decreases |s|
  {
    if |s| > 1 {
      var p := s[..|s| - 1];
      LeadingDigitPositive(p);
      DecOfValue(p);
      assert s == p + [s[|s| - 1]];
    }
  }

  /** ParseDec is the exact inverse of Dec. */
  lemma ParseDecRoundTrip(n: nat, s: string)
    ensures ParseDec(Dec(n)) == Some(n)
    ensures ParseDec(s) == Some(n) <==> s == Dec(n)
  {
    DecValue(n);
    if IsCanonicalDec(s) {
      DecOfValue(s);
    }
  }

  // ---------------------------------------------------------------------------
  // Hexadecimal digits
  // ---------------------------------------------------------------------------

  /** One character of the class `[A-Fa-f0-9]`. */
  predicate IsHexDigit(c: char) {
    '0' <= c <= '9' || 'a' <= c <= 'f' || 'A' <= c <= 'F'
  }

  predicate AllHexDigits(s: string) {
    forall i :: 0 <= i < |s| ==> IsHexDigit(s[i])
  }

  /** `Character.digit(c, 16)` on an ASCII hex digit: upper and lower case alike. */
  function HexDigitValue(c: char): (d: nat)
    requires IsHexDigit(c)
    ensures d < 16
    ensures IsDigit(c) ==> d == DigitValue(c)
    ensures 'a' <= c <= 'f' ==> d == c as int - 'a' as int + 10
    ensures 'A' <= c <= 'F' ==> d == c as int - 'A' as int + 10
  {
    if '0' <= c <= '9' then c as int - '0' as int
    else if 'a' <= c <= 'f' then c as int - 'a' as int + 10
    else c as int - 'A' as int + 10
  }

  /** The lower-case hex digit for a value below 16. */
  function HexDigitChar(d: nat): (c: char)
    requires d < 16
    ensures IsHexDigit(c) && !('A' <= c <= 'F')
    ensures HexDigitValue(c) == d
  {
    if d < 10 then DigitChar(d) else (d - 10 + 'a' as int) as char
  }

  /** ASCII lower-casing, as `String.toLowerCase` does for these characters. */
  function LowerAscii(c: char): (l: char)
    ensures 'A' <= c <= 'Z' ==> 'a' <= l <= 'z' && l as int == c as int + 32
    ensures !('A' <= c <= 'Z') ==> l == c
  {
    if 'A' <= c <= 'Z' then (c as int + 32) as char else c
  }

  /** `Integer.parseInt(s, 16)` on a string of ASCII hex digits. */
  function HexValue(s: string): nat
    requires AllHexDigits(s)
  {
    if s == [] then 0 else HexValue(s[..|s| - 1]) * 16 + HexDigitValue(s[|s| - 1])
  }

  /** Two hex digits denote a byte: the high digit times sixteen plus the low digit. */
  lemma HexPairValue(s: string)
    requires |s| == 2 && AllHexDigits(s)
    ensures HexValue(s) == 16 * HexDigitValue(s[0]) + HexDigitValue(s[1])
    ensures HexValue(s) < 256
  {
    var hi := s[..1];
    assert hi[..0] == [];
    assert HexValue(hi) == HexDigitValue(s[0]);
  }
}
