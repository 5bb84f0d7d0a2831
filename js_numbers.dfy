/** The two number conversions the hash format relies on: rendering an
    integer-valued Number inside a template literal, and `parseInt(s, 10)`. */
module JsNumbers {

  /** A JavaScript Number as far as the format sees it: `NaN` or an
      integer value. */
  datatype Number = NaN | Int(value: int)

  predicate IsDigit(c: char) { '0' <= c <= '9' }

  function DigitChar(k: nat): (c: char)
    requires k < 10
    ensures IsDigit(c) && c as int - '0' as int == k
  {
    "0123456789"[k]
  }

  function DigitValue(c: char): (k: nat)
    requires IsDigit(c)
    ensures k < 10 && DigitChar(k) == c
  {
    c as int - '0' as int
  }

  /** The shortest decimal numeral of a natural number. */
  function NatToDecimal(n: nat): (s: string)
    ensures |s| >= 1
    ensures forall i :: 0 <= i < |s| ==> IsDigit(s[i])
    ensures s[0] == '0' ==> n == 0
    decreases n
  {
    if n < 10 then [DigitChar(n)]
    else NatToDecimal(n / 10) + [DigitChar(n % 10)]
  }

  /** `Number.MAX_SAFE_INTEGER`, 2^53 - 1. */
  const MAX_SAFE_INTEGER: int := 0x1F_FFFF_FFFF_FFFF

  /** The integer Numbers whose every neighbour is a Number too: up to
      this magnitude a Number renders and parses with exact decimal
      digits. */
  type SafeInteger = n: int | -MAX_SAFE_INTEGER <= n <= MAX_SAFE_INTEGER

  /** `${n}` for a safe-integer Number: a minus sign exactly when it is
      negative (negative zero renders as "0"), then the decimal digits of
      the magnitude. */
  function IntToString(n: int): (r: string)
    ensures |r| >= 1
    ensures r[0] == '-' <==> n < 0
    ensures forall i :: 0 < i < |r| ==> IsDigit(r[i])
    ensures n >= 0 ==> IsDigit(r[0])
  {
    if n < 0 then "-" + NatToDecimal(-n) else NatToDecimal(n)
  }

  /** The value of a non-empty string of decimal digits, most significant
      digit first. */
  function DecimalValue(s: string): (n: nat)
    requires forall i :: 0 <= i < |s| ==> IsDigit(s[i])
    decreases |s|
  {
    if s == [] then 0
    else DecimalValue(s[..|s| - 1]) * 10 + DigitValue(s[|s| - 1])
  }

  /** The characters ECMAScript's StrWhiteSpaceChar admits: WhiteSpace
      (TAB, VT, FF, SP, NBSP, ZWNBSP and the Space_Separator category) and
      LineTerminator (LF, CR, LS, PS). */
  predicate IsJsWhitespace(c: char)
  {
    var k := c as int;
    (0x09 <= k <= 0x0D) || k == 0x20 || k == 0xA0 || k == 0x1680 ||
    (0x2000 <= k <= 0x200A) || k == 0x2028 || k == 0x2029 || k == 0x202F ||
    k == 0x205F || k == 0x3000 || k == 0xFEFF
  }

  /** The input with its leading white space removed. */
  function TrimStart(s: string): (t: string)
    ensures |t| <= |s| && t == s[|s| - |t|..]
    ensures t != [] ==> !IsJsWhitespace(t[0])
    ensures forall i :: 0 <= i < |s| - |t| ==> IsJsWhitespace(s[i])
    decreases |s|
  {
    if s != [] && IsJsWhitespace(s[0]) then TrimStart(s[1..]) else s
  }

  /** The longest prefix made of decimal digits. */
  function DigitPrefix(s: string): (z: string)
    ensures |z| <= |s| && z == s[..|z|]
    ensures forall i :: 0 <= i < |z| ==> IsDigit(z[i])
    ensures |z| < |s| ==> !IsDigit(s[|z|])
    decreases |s|
  {
    if s != [] && IsDigit(s[0]) then [s[0]] + DigitPrefix(s[1..]) else ""
  }

  /** `parseInt(s, 10)`: skip leading white space, take an optional sign,
      then the longest run of decimal digits; `NaN` when there is none. */
  function ParseInt(s: string): (r: Number)
    ensures r.Int? ==> exists i :: 0 <= i < |s| && IsDigit(s[i])
    ensures s != [] && IsDigit(s[0]) ==> r.Int? && r.value >= 0
  {
    ParseSigned(TrimStart(s))
  }

  /** `parseInt` after the white space: an optional sign, then the longest
      run of decimal digits. */
  function ParseSigned(t: string): (r: Number)
    ensures r.Int? ==> exists i :: 0 <= i < |t| && IsDigit(t[i])
    ensures t != [] && IsDigit(t[0]) ==> r.Int? && r.value >= 0
    ensures r.Int? && r.value < 0 ==> t[0] == '-'
  {
    var negative := t != [] && t[0] == '-';
    var u := if t != [] && (t[0] == '-' || t[0] == '+') then t[1..] else t;
    var z := DigitPrefix(u);
    if z == [] then NaN
    else if negative then Int(-(DecimalValue(z) as int))
    else Int(DecimalValue(z))
  }

  /** Reading back the decimal numeral of a natural number gives the number. */
  lemma {:induction false} DecimalValueOfNatToDecimal(n: nat)
    ensures DecimalValue(NatToDecimal(n)) == n
    decreases n
  {
    var s := NatToDecimal(n);
    if n >= 10 {
      DecimalValueOfNatToDecimal(n / 10);
      assert s[..|s| - 1] == NatToDecimal(n / 10);
    }
  }

  lemma DigitPrefixOfDigits(s: string)
    requires forall i :: 0 <= i < |s| ==> IsDigit(s[i])
    ensures DigitPrefix(s) == s
  {
  }

  /** Nothing is trimmed from a string that starts with a non-space. */
  lemma TrimStartOfNonSpace(s: string)
    requires s != [] && !IsJsWhitespace(s[0])
    ensures TrimStart(s) == s
  {
  }

  /** After the white space, a string that starts with a digit is read as
      its longest digit run. */
  lemma ParseSignedUnsigned(s: string)
    requires s != [] && IsDigit(s[0])
    ensures ParseSigned(s) == Int(DecimalValue(DigitPrefix(s)))
  {
    assert DigitPrefix(s) != [];
  }

  /** `parseInt` of a digit string reads all of it. */
  lemma ParseIntOfDigits(digits: string)
    requires digits != []
    requires forall i :: 0 <= i < |digits| ==> IsDigit(digits[i])
    ensures ParseInt(digits) == Int(DecimalValue(digits))
  {
    assert !IsJsWhitespace(digits[0]);
    TrimStartOfNonSpace(digits);
    DigitPrefixOfDigits(digits);
    ParseSignedUnsigned(digits);
  }

  /** After the white space, a minus sign and a digit string are read
      whole and negated. */
  lemma ParseSignedOfNegativeDigits(digits: string)
    requires digits != []
    requires forall i :: 0 <= i < |digits| ==> IsDigit(digits[i])
    ensures ParseSigned("-" + digits) == Int(-(DecimalValue(digits) as int))
  {
    DigitPrefixOfDigits(digits);
    ParseSignedNegative(digits);
  }

  /** After the white space, a minus sign and a digit are read as the
      negated longest digit run after the sign. */
  lemma ParseSignedNegative(u: string)
    requires u != [] && IsDigit(u[0])
    ensures ParseSigned("-" + u) == Int(-(DecimalValue(DigitPrefix(u)) as int))
  {
    var s := "-" + u;
    assert s[0] == '-' && s[1..] == u;
    assert DigitPrefix(u) != [];
  }

  /** `parseInt` of a minus sign and a digit string reads all of it and
      negates the value. */
  lemma ParseIntOfNegativeDigits(digits: string)
    requires digits != []
    requires forall i :: 0 <= i < |digits| ==> IsDigit(digits[i])
    ensures ParseInt("-" + digits) == Int(-(DecimalValue(digits) as int))
  {
    var s := "-" + digits;
    assert s[0] == '-' && !IsJsWhitespace(s[0]);
    TrimStartOfNonSpace(s);
    ParseSignedOfNegativeDigits(digits);
  }

  /** `parseInt(`${n}`, 10)` is `n` for every integer-valued Number. */
  lemma ParseIntOfIntToString(n: int)
    ensures ParseInt(IntToString(n)) == Int(n)
  {
    var m := if n < 0 then -n else n;
    DecimalValueOfNatToDecimal(m);
    if n < 0 {
      ParseIntOfNegativeDigits(NatToDecimal(m));
    } else {
      ParseIntOfDigits(NatToDecimal(m));
    }
  }
}
