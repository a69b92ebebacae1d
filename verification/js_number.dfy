/**
 * The two JavaScript number/string conversions the voting pages depend on:
 * `Number.prototype.toString()` of an integer (decimal, with a leading `-`
 * when negative) and the global `parseInt(s)` with no radix argument, which
 * skips leading white space, takes an optional sign, switches to base 16 on
 * a `0x`/`0X` prefix and reads the longest run of digits, giving `NaN`
 * (here `None`) when there is none.
 */
module JsNumber {
  import opened Wrappers

  /** The character of a decimal digit. */
  function DigitChar(d: nat): (c: char)
    requires d < 10
    ensures '0' <= c <= '9'
  {
    "0123456789"[d]
  }

  /** Value of a character as a digit in any radix up to 36; 36 when it is no digit. */
  function DigitValue(c: char): (v: nat)
    ensures v <= 36
  {
    if '0' <= c <= '9' then c as nat - '0' as nat
    else if 'a' <= c <= 'z' then c as nat - 'a' as nat + 10
    else if 'A' <= c <= 'Z' then c as nat - 'A' as nat + 10
    else 36
  }

  predicate IsDigit(c: char, radix: nat) {
    DigitValue(c) < radix
  }

  predicate AllDigits(s: string, radix: nat) {
    forall i :: 0 <= i < |s| ==> IsDigit(s[i], radix)
  }

  /** Decimal text of a natural number, without leading zeros. */
  function DecimalString(n: nat): (s: string)
    ensures |s| >= 1
    ensures AllDigits(s, 10)
    ensures s[0] == '0' ==> n == 0
    ensures n < 10 <==> |s| == 1
  {
    if n < 10 then [DigitChar(n)]
    else DecimalString(n / 10) + [DigitChar(n % 10)]
  }

  /**
   * `String(i)` for an integral JavaScript number of magnitude below 10^21;
   * from 10^21 on JavaScript switches to exponent form, which is not modelled.
   */
  function NumberToString(i: int): (s: string)
    ensures |s| >= 1
    ensures s[0] == '-' <==> i < 0
    ensures forall k :: (if i < 0 then 1 else 0) <= k < |s| ==> IsDigit(s[k], 10)
  {
    if i < 0 then "-" + DecimalString(-i) else DecimalString(i)
  }

  /** Value of a digit string in the given radix, most significant digit first. */
  function DigitsValue(s: string, radix: nat): nat
    requires AllDigits(s, radix)
  {
    if |s| == 0 then 0
    else DigitsValue(s[..|s| - 1], radix) * radix + DigitValue(s[|s| - 1])
  }

  /**
   * The StrWhiteSpaceChar set of ECMAScript: the WhiteSpace code points
   * (tab, vertical tab, form feed, no-break space, byte-order mark and every
   * space separator) and the line terminators.
   */
  predicate IsStrWhiteSpace(c: char) {
    || c == '\U{0009}' || c == '\U{000B}' || c == '\U{000C}' || c == '\U{FEFF}'
    || c == '\U{0020}' || c == '\U{00A0}' || c == '\U{1680}'
    || ('\U{2000}' <= c <= '\U{200A}') || c == '\U{202F}' || c == '\U{205F}' || c == '\U{3000}'
    || c == '\U{000A}' || c == '\U{000D}' || c == '\U{2028}' || c == '\U{2029}'
  }

  function TrimStart(s: string): (t: string)
    ensures |t| > 0 ==> !IsStrWhiteSpace(t[0])
  {
    if |s| > 0 && IsStrWhiteSpace(s[0]) then TrimStart(s[1..]) else s
  }

  /** The longest prefix of `s` made of digits of the radix. */
  function DigitPrefix(s: string, radix: nat): (p: string)
    ensures p <= s && AllDigits(p, radix)
    ensures |p| < |s| ==> !IsDigit(s[|p|], radix)
  {
    if |s| > 0 && IsDigit(s[0], radix) then [s[0]] + DigitPrefix(s[1..], radix) else []
  }

  /** The sign and remainder after an optional leading `+` or `-`. */
  function SplitSign(s: string): (int, string) {
    if |s| > 0 && s[0] == '-' then (-1, s[1..])
    else if |s| > 0 && s[0] == '+' then (1, s[1..])
    else (1, s)
  }

  /** The radix and remainder after an optional `0x`/`0X` prefix. */
  function SplitRadix(s: string): (nat, string) {
    if |s| >= 2 && s[0] == '0' && (s[1] == 'x' || s[1] == 'X') then (16, s[2..]) else (10, s)
  }

  /** The unsigned part of `parseInt`: radix prefix, then the longest digit run. */
  function ParseUnsigned(s: string): Option<nat> {
    var (radix, body) := SplitRadix(s);
    var digits := DigitPrefix(body, radix);
    if |digits| == 0 then None else Some(DigitsValue(digits, radix))
  }

  /** `parseInt(s)`; `None` stands for `NaN`. `-0` is identified with 0. */
  function ParseInt(s: string): (r: Option<int>)
    ensures |TrimStart(s)| == 0 ==> r == None
    ensures r.Some? && r.value < 0 ==> TrimStart(s)[0] == '-'
  {
    var (sign, unsigned) := SplitSign(TrimStart(s));
    match ParseUnsigned(unsigned)
    case None => None
    case Some(v) => Some(sign * v)
  }

  lemma {:induction false} DigitsValueOfDecimal(n: nat)
    ensures DigitsValue(DecimalString(n), 10) == n
  {
    var s := DecimalString(n);
    if n < 10 {
      assert s[..0] == [];
    } else {
      assert s[..|s| - 1] == DecimalString(n / 10);
      DigitsValueOfDecimal(n / 10);
      assert DigitValue(DigitChar(n % 10)) == n % 10;
    }
  }

  /** Distinct numbers have distinct decimal texts. */
  lemma DecimalStringInjective(a: nat, b: nat)
    ensures DecimalString(a) == DecimalString(b) <==> a == b
  {
    if DecimalString(a) == DecimalString(b) {
      DigitsValueOfDecimal(a);
      DigitsValueOfDecimal(b);
    }
  }

  lemma {:induction false} DigitPrefixStopsAt(s: string, rest: string, radix: nat)
    requires AllDigits(s, radix)
    requires |rest| == 0 || !IsDigit(rest[0], radix)
    ensures DigitPrefix(s + rest, radix) == s
  {
    if |s| == 0 {
      assert s + rest == rest;
    } else {
      assert (s + rest)[1..] == s[1..] + rest;
      DigitPrefixStopsAt(s[1..], rest, radix);
    }
  }

  /** The decimal text of a natural number, followed by anything that is no digit, read without sign. */
  lemma ParseUnsignedDecimalPrefix(n: nat, rest: string)
    requires |rest| == 0 || !IsDigit(rest[0], 10)
    requires n == 0 ==> |rest| == 0 || (rest[0] != 'x' && rest[0] != 'X')
    ensures ParseUnsigned(DecimalString(n) + rest) == Some(n)
  {
    var d := DecimalString(n);
    var s := d + rest;
    if |d| >= 2 {
      assert s[1] == d[1];
    }
    assert SplitRadix(s) == (10, s);
    DigitPrefixStopsAt(d, rest, 10);
    DigitsValueOfDecimal(n);
  }

  /** Text that starts with a decimal digit is read by `parseInt` without trimming or sign. */
  lemma ParseIntOfDigitStart(s: string, v: nat)
    requires |s| > 0 && IsDigit(s[0], 10)
    requires ParseUnsigned(s) == Some(v)
    ensures ParseInt(s) == Some(v)
  {
  }

  /** The decimal text of a natural number read by `parseInt`, followed by anything that is no digit. */
  lemma ParseIntDecimalPrefix(n: nat, rest: string)
    requires |rest| == 0 || !IsDigit(rest[0], 10)
    requires n == 0 ==> |rest| == 0 || (rest[0] != 'x' && rest[0] != 'X')
    ensures ParseInt(DecimalString(n) + rest) == Some(n)
  {
    var s := DecimalString(n) + rest;
    assert s[0] == DecimalString(n)[0];
    ParseUnsignedDecimalPrefix(n, rest);
    ParseIntOfDigitStart(s, n);
  }

  /** A minus sign in front of digit-led text negates what `parseInt` reads. */
  lemma ParseIntOfNegated(d: string, v: nat)
    requires ParseUnsigned(d) == Some(v)
    ensures ParseInt("-" + d) == Some(-(v as int))
  {
  }

  /** `parseInt` reads the bare decimal text of a natural number back. */
  lemma ParseIntOfDecimal(n: nat)
    ensures ParseInt(DecimalString(n)) == Some(n)
    ensures ParseUnsigned(DecimalString(n)) == Some(n)
  {
    var d := DecimalString(n);
    assert d + "" == d;
    ParseUnsignedDecimalPrefix(n, "");
    ParseIntOfDigitStart(d, n);
  }

  /** `parseInt(String(i)) === i` for every integral number. */
  lemma ParseIntOfNumberToString(i: int)
    ensures ParseInt(NumberToString(i)) == Some(i)
  {
    if i >= 0 {
      assert NumberToString(i) == DecimalString(i);
      ParseIntOfDecimal(i);
    } else {
      assert NumberToString(i) == "-" + DecimalString(-i);
      ParseIntOfNegativeDecimal(-i);
    }
  }

  lemma ParseIntOfNegativeDecimal(n: nat)
    ensures ParseInt("-" + DecimalString(n)) == Some(-(n as int))
  {
    ParseIntOfDecimal(n);
    ParseIntOfNegated(DecimalString(n), n);
  }

  /** Leading white space never changes what `parseInt` reads. */
  lemma ParseIntSkipsWhiteSpace(c: char, s: string)
    requires IsStrWhiteSpace(c)
    ensures ParseInt([c] + s) == ParseInt(s)
  {
  }

  /** `parseInt` gives `NaN` when the trimmed text starts with neither a sign nor a decimal digit. */
  lemma ParseIntNaN(s: string)
    requires var t := TrimStart(s); |t| == 0 || (t[0] != '-' && t[0] != '+' && !IsDigit(t[0], 10))
    ensures ParseInt(s) == None
  {
  }
}
