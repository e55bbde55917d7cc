/** The two number conversions the deployer uses: the global `parseInt(s)`
    (no radix argument) and `n.toString(radix)` for a non-negative integer. */
module JsNumbers {
  import opened JsStrings

  /** What `parseInt` returns: an integer, or NaN when no digit could be read. */
  datatype Number = Num(n: int) | NaN

  /** The value of `c` read as a digit, for the radices `parseInt` picks on its
      own (10, and 16 after a `0x` prefix); -1 for anything else. */
  function DigitValue(c: char): (d: int)
    ensures -1 <= d < 16
  {
    if '0' <= c <= '9' then c as int - '0' as int
    else if 'a' <= c <= 'f' then c as int - 'a' as int + 10
    else if 'A' <= c <= 'F' then c as int - 'A' as int + 10
    else -1
  }

  predicate IsDigit(c: char, radix: nat) {
    0 <= DigitValue(c) < radix
  }

  predicate AllDigits(s: string, radix: nat) {
    forall i :: 0 <= i < |s| ==> IsDigit(s[i], radix)
  }

  /** The longest prefix of `s` made of digits of `radix`. */
  function DigitPrefix(s: string, radix: nat): (z: string)
    ensures |z| <= |s| && z == s[..|z|]
    ensures AllDigits(z, radix)
    ensures |z| == |s| || !IsDigit(s[|z|], radix)
  {
    if s != [] && IsDigit(s[0], radix) then [s[0]] + DigitPrefix(s[1..], radix) else ""
  }

  /** The number a string of digits denotes, most significant digit first. */
  function ValueOf(z: string, radix: nat): nat
    requires AllDigits(z, radix)
  {
    if z == [] then 0 else ValueOf(z[..|z| - 1], radix) * radix + DigitValue(z[|z| - 1])
  }

  /** `parseInt(s)` as ECMAScript defines it when no radix is given: skip
      leading white space, take an optional sign, read a `0x`/`0X` prefix as
      radix 16 (radix 10 otherwise), then read the longest run of digits;
      NaN when that run is empty. */
  function ParseInt(s: string): Number {
    var t := TrimStart(s);
    var negative := t != [] && t[0] == '-';
    var u := if t != [] && (t[0] == '-' || t[0] == '+') then t[1..] else t;
    ParseUnsigned(u, negative)
  }

  /** The part of `parseInt` after the sign: radix detection and digits. */
  function ParseUnsigned(u: string, negative: bool): Number {
    var hex := |u| >= 2 && u[0] == '0' && (u[1] == 'x' || u[1] == 'X');
    var radix := if hex then 16 else 10;
    var z := DigitPrefix(if hex then u[2..] else u, radix);
    if z == [] then NaN
    else
      var v: int := ValueOf(z, radix);
      Num(if negative then -v else v)
  }

  /** The digit characters `toString` writes, lower case. */
  const DigitChars: string := "0123456789abcdef"

  /** `n.toString(radix)` for a natural number and radix 10 or 16: the
      canonical digit string of `n` (no leading zero, lower-case letters). */
  function ToRadix(n: nat, radix: nat): (r: string)
    requires radix == 10 || radix == 16
    ensures |r| >= 1 && AllDigits(r, radix)
    ensures ValueOf(r, radix) == n
    ensures r[0] != '0' || n == 0
  {
    var last := [DigitChars[n % radix]];
    DigitCharValue(n % radix);
    if n < radix then last
    else
      var r := ToRadix(n / radix, radix) + last;
      assert r[..|r| - 1] == ToRadix(n / radix, radix);
      r
  }

  lemma DigitCharValue(d: nat)
    requires d < 16
    ensures DigitValue(DigitChars[d]) == d
  {
  }

  lemma DigitNotWhite(c: char)
    requires IsDigit(c, 16)
    ensures !IsWhite(c) && c != '-' && c != '+' && c != 'x' && c != 'X'
  {
  }

  lemma DigitPrefixOfDigits(s: string, radix: nat)
    requires AllDigits(s, radix)
    ensures DigitPrefix(s, radix) == s
  {
  }

  /** Text that starts with a digit is read from its first character. */
  lemma ParseFromDigit(s: string)
    requires s != [] && IsDigit(s[0], 16)
    ensures ParseInt(s) == ParseUnsigned(s, false)
  {
    DigitNotWhite(s[0]);
    assert TrimStart(s) == s;
  }

  /** A run of decimal digits is read as its decimal value. */
  lemma ParseDigits(s: string)
    requires s != [] && AllDigits(s, 10)
    ensures ParseInt(s) == Num(ValueOf(s, 10))
  {
    ParseFromDigit(s);
    if |s| >= 2 {
      DigitNotWhite(s[1]);
    }
    DigitPrefixOfDigits(s, 10);
  }

  /** `0x` followed by hex digits is read as their hex value. */
  lemma ParseHexDigits(d: string)
    requires d != [] && AllDigits(d, 16)
    ensures ParseInt("0x" + d) == Num(ValueOf(d, 16))
  {
    var s := "0x" + d;
    ParseFromDigit(s);
    assert s[2..] == d;
    DigitPrefixOfDigits(d, 16);
  }

  /** `parseInt` reads back what `toString(10)` writes. */
  lemma ParseDecimal(n: nat)
    ensures ParseInt(ToRadix(n, 10)) == Num(n)
  {
    ParseDigits(ToRadix(n, 10));
  }

  /** `parseInt` reads back `"0x"` followed by what `toString(16)` writes. */
  lemma ParseHex(n: nat)
    ensures ParseInt("0x" + ToRadix(n, 16)) == Num(n)
  {
    ParseHexDigits(ToRadix(n, 16));
  }

  /** `parseInt` skips leading white space: padding the text with it changes
      nothing. */
  lemma ParseSkipsWhite(w: string, s: string)
    requires AllWhite(w)
    ensures ParseInt(w + s) == ParseInt(s)
  {
    TrimStartSkips(w, s);
  }

  /** A minus sign before a run of decimal digits negates their value. */
  lemma ParseNegativeDigits(d: string)
    requires d != [] && AllDigits(d, 10)
    ensures ParseInt("-" + d) == Num(-(ValueOf(d, 10) as int))
  {
    ParseAfterMinus(d);
    UnsignedDecimal(d, true);
  }

  lemma ParseAfterMinus(d: string)
    ensures ParseInt("-" + d) == ParseUnsigned(d, true)
  {
    var s := "-" + d;
    assert TrimStart(s) == s;
    assert s[1..] == d;
  }

  lemma UnsignedDecimal(d: string, negative: bool)
    requires d != [] && AllDigits(d, 10)
    ensures var v: int := ValueOf(d, 10); ParseUnsigned(d, negative) == Num(if negative then -v else v)
  {
    if |d| >= 2 {
      DigitNotWhite(d[1]);
    }
    DigitPrefixOfDigits(d, 10);
  }

  /** `parseInt` reads back the decimal text of a negative number. */
  lemma ParseNegative(n: nat)
    ensures ParseInt("-" + ToRadix(n, 10)) == Num(-(n as int))
  {
    ParseNegativeDigits(ToRadix(n, 10));
  }

  /** `parseInt` gives NaN when the text, after white space and a sign, does
      not start with a digit. */
  lemma ParseNoDigit(s: string)
    requires s != [] && !IsWhite(s[0]) && s[0] != '-' && s[0] != '+' && !IsDigit(s[0], 10)
    ensures ParseInt(s) == NaN
  {
    assert TrimStart(s) == s;
  }
}
