/**
 * The configuration helpers that turn a Win32 BOOL into "true"/"false" and
 * read a BOOL back from a string such as "yes", "On" or "1".
 */
module BoolStrings {
  import opened CStrings

  /** Win32 BOOL: a 32-bit int where TRUE is 1 and FALSE is 0. */
  newtype Int32 = x: int | -0x8000_0000 <= x < 0x8000_0000

  const TRUE: Int32 := 1
  const FALSE: Int32 := 0

  /** booltostr: only the exact value TRUE prints as "true". */
  function BoolToStr(b: Int32): (s: string)
    ensures s == "true" || s == "false"
  {
    if b == TRUE then "true" else "false"
  }

  /** booltostr says "true" exactly when `b == TRUE`; every other value, zero or not, says "false". */
  lemma BoolToStrOnlyExactTrue(b: Int32)
    ensures BoolToStr(b) == "true" <==> b == TRUE
    ensures BoolToStr(b) == "false" <==> b != TRUE
  {
  }

  // `_tcstol(s, &end, 10)`, simplified: leading white space, an optional
  // sign, then the longest run of decimal digits; no digits gives 0. The
  // clamping to LONG_MAX/LONG_MIN on overflow is left out: a clamped value is
  // never 1, which is the only value strtobool asks about.

  predicate IsSpace(c: char) {
    c == ' ' || c == '\t' || c == '\n' || c as int == 0x0B || c as int == 0x0C || c == '\r'
  }

  predicate IsDigit(c: char) {
    '0' <= c <= '9'
  }

  function DigitValue(c: char): (d: nat)
    requires IsDigit(c)
    ensures d < 10
  {
    c as int - '0' as int
  }

  /** `_tcstol`'s first step: drop the leading white space. */
  function SkipSpace(s: string): (t: string)
    ensures |t| <= |s| && t == s[|s| - |t|..] && (t == [] || !IsSpace(t[0]))
    ensures forall i :: 0 <= i < |s| - |t| ==> IsSpace(s[i])
  {
    if s != [] && IsSpace(s[0]) then SkipSpace(s[1..]) else s
  }

  /** The longest prefix of decimal digits. */
  function DigitRun(s: string): (d: string)
    ensures d <= s && forall i :: 0 <= i < |d| ==> IsDigit(d[i])
    ensures |d| < |s| ==> !IsDigit(s[|d|])
  {
    if s != [] && IsDigit(s[0]) then [s[0]] + DigitRun(s[1..]) else []
  }

  /** The value of a string of decimal digits, most significant first. */
  function DigitsValue(d: string): (v: nat)
    requires forall i :: 0 <= i < |d| ==> IsDigit(d[i])
  {
    if d == [] then 0 else DigitsValue(d[..|d| - 1]) * 10 + DigitValue(d[|d| - 1])
  }

  /**
   * `_tcstol(s, &end, 10)`: the value of the digits after the white space and
   * an optional sign, negated after '-'; 0 when no digit follows.
   */
  function StrToLong(s: string): (v: int)
    ensures v < 0 ==> SkipSpace(s) != [] && SkipSpace(s)[0] == '-'
    ensures var t := SkipSpace(s);
      var digits := if t != [] && (t[0] == '-' || t[0] == '+') then t[1..] else t;
      DigitRun(digits) == [] ==> v == 0
  {
    var t := SkipSpace(s);
    if t != [] && t[0] == '-' then -(DigitsValue(DigitRun(t[1..])) as int)
    else if t != [] && t[0] == '+' then DigitsValue(DigitRun(t[1..]))
    else DigitsValue(DigitRun(t))
  }

  /** strtobool: "true", "yes" and "on" in any case, or anything `_tcstol` reads as 1. */
  function StrToBool(s: string): (b: Int32)
    requires NoNul(s)
    ensures b == TRUE || b == FALSE
  {
    if EqualsIgnoreCase(s, "true") || EqualsIgnoreCase(s, "yes") || EqualsIgnoreCase(s, "on")
       || StrToLong(s) == 1
    then TRUE else FALSE
  }

  /** strtobool reads back what booltostr wrote: TRUE for TRUE, FALSE for every other BOOL. */
  lemma BoolRoundTrip(b: Int32)
    ensures StrToBool(BoolToStr(b)) == if b == TRUE then TRUE else FALSE
  {
    if b == TRUE {
      assert EqualsIgnoreCase("true", "true");
    } else {
      FalseReadsFalse();
    }
  }

  /** "false" is longer than each word strtobool accepts, and `_tcstol` finds no digit in it. */
  lemma FalseReadsFalse()
    ensures StrToBool("false") == FALSE
  {
    assert !IsSpace('f') && !IsDigit('f');
    assert SkipSpace("false") == "false";
    assert DigitRun("false") == [];
  }

  /** The decimal spelling of a natural number, as `%u` prints it. */
  function Decimal(n: nat): (d: string)
    ensures d != [] && forall i :: 0 <= i < |d| ==> IsDigit(d[i])
  {
    (if n < 10 then [] else Decimal(n / 10)) + [('0' as int + n % 10) as char]
  }

  lemma {:induction false} DecimalValue(n: nat)
    ensures DigitsValue(Decimal(n)) == n
  {
    var d := Decimal(n);
    assert d[..|d| - 1] == if n < 10 then [] else Decimal(n / 10);
    if n >= 10 {
      DecimalValue(n / 10);
    }
  }

  lemma {:induction false} DigitRunOfDigits(d: string)
    requires forall i :: 0 <= i < |d| ==> IsDigit(d[i])
    ensures DigitRun(d) == d
  {
    if d != [] {
      DigitRunOfDigits(d[1..]);
    }
  }

  /** `_tcstol` reads a decimal number back. */
  lemma DecimalParses(n: nat)
    ensures StrToLong(Decimal(n)) == n
  {
    var d := Decimal(n);
    assert IsDigit(d[0]) && !IsSpace(d[0]);
    assert SkipSpace(d) == d;
    DigitRunOfDigits(d);
    DecimalValue(n);
    assert d[0] != '-' && d[0] != '+';
  }

  /** A string starting with a digit is none of the words strtobool accepts. */
  lemma LeadingDigitIsNoWord(d: string, w: string)
    requires d != [] && IsDigit(d[0]) && w != [] && 'a' <= w[0] <= 'z'
    ensures !EqualsIgnoreCase(d, w)
  {
    assert Lower(d)[0] == ToLower(d[0]) == d[0];
    assert Lower(w)[0] == ToLower(w[0]) == w[0];
  }

  /** A decimal number means TRUE to strtobool exactly when it is 1: "1" does, "0" and "2" do not. */
  lemma DecimalIsTrueOnlyForOne(n: nat)
    ensures StrToBool(Decimal(n)) == TRUE <==> n == 1
  {
    var d := Decimal(n);
    DecimalParses(n);
    LeadingDigitIsNoWord(d, "true");
    LeadingDigitIsNoWord(d, "yes");
    LeadingDigitIsNoWord(d, "on");
  }
}
