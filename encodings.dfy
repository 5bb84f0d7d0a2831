/** The byte-level views of a string the source relies on: `Buffer.from(s)`
    (UTF-8), `buf.toString('hex')` (two lower-case hex digits per byte) and
    `s.length` (UTF-16 code units). A Dafny `char` is a Unicode scalar value,
    so a string here is a JavaScript string without lone surrogates. */
module Encodings {
  import opened Wrappers

  type byte = b: int | 0 <= b < 256

  // ---------------------------------------------------------------------
  // Hex, as written by `Buffer.prototype.toString('hex')`

  /** The hex digit of a nibble, lower case. */
  function HexDigit(k: nat): (c: char)
    requires k < 16
    ensures IsLowerHex(c)
  {
    if k < 10 then ('0' as int + k) as char else ('a' as int + k - 10) as char
  }

  predicate IsLowerHex(c: char) { '0' <= c <= '9' || 'a' <= c <= 'f' }

  predicate IsLowerHexString(s: string)
  {
    forall i :: 0 <= i < |s| ==> IsLowerHex(s[i])
  }

  function HexDigitValue(c: char): (k: nat)
    requires IsLowerHex(c)
    ensures k < 16 && HexDigit(k) == c
  {
    if '0' <= c <= '9' then c as int - '0' as int else c as int - 'a' as int + 10
  }

  /** The hex form of a byte sequence: two lower-case digits per byte,
      high nibble first. */
  function Hex(bs: seq<byte>): (s: string)
    ensures |s| == 2 * |bs|
    ensures IsLowerHexString(s)
  {
    if bs == [] then ""
    else [HexDigit(bs[0] / 16), HexDigit(bs[0] % 16)] + Hex(bs[1..])
  }

  /** Reads a hex string back into bytes; `None` for an odd length or a
      character that is not a lower-case hex digit. */
  function FromHex(s: string): (r: Option<seq<byte>>)
    ensures r.Some? ==> 2 * |r.value| == |s|
    ensures r.Some? <==> |s| % 2 == 0 && IsLowerHexString(s)
    decreases |s|
  {
    if s == [] then Some([])
    else if |s| < 2 || !IsLowerHex(s[0]) || !IsLowerHex(s[1]) then None
    else
      match FromHex(s[2..])
      case None => None
      case Some(rest) => Some([HexDigitValue(s[0]) * 16 + HexDigitValue(s[1])] + rest)
  }

  lemma HexDigitValueOfHexDigit(k: nat)
    requires k < 16
    ensures HexDigitValue(HexDigit(k)) == k
  {
  }

  /** Hex decoding undoes hex encoding. */
  lemma {:induction false} FromHexOfHex(bs: seq<byte>)
    ensures FromHex(Hex(bs)) == Some(bs)
    decreases |bs|
  {
    if bs != [] {
      FromHexOfHex(bs[1..]);
      var s := Hex(bs);
      var hi, lo := bs[0] / 16, bs[0] % 16;
      assert s == [HexDigit(hi), HexDigit(lo)] + Hex(bs[1..]);
      assert s[0] == HexDigit(hi) && s[1] == HexDigit(lo) && s[2..] == Hex(bs[1..]);
      HexDigitValueOfHexDigit(hi);
      HexDigitValueOfHexDigit(lo);
      assert hi * 16 + lo == bs[0];
      assert [bs[0]] + bs[1..] == bs;
    }
  }

  /** Two byte sequences with the same hex form are equal. */
  lemma HexInjective(a: seq<byte>, b: seq<byte>)
    requires Hex(a) == Hex(b)
    ensures a == b
  {
    FromHexOfHex(a);
    FromHexOfHex(b);
  }

  // ---------------------------------------------------------------------
  // UTF-8, as produced by `Buffer.from(string)`

  /** The UTF-8 encoding of one Unicode scalar value. */
  function Utf8Char(c: char): (e: seq<byte>)
    ensures 1 <= |e| <= 4
  {
    var n := c as int;
    if n < 0x80 then [n]
    else if n < 0x800 then [0xC0 + n / 64, 0x80 + n % 64]
    else if n < 0x10000 then [0xE0 + n / 4096, 0x80 + n / 64 % 64, 0x80 + n % 64]
    else [0xF0 + n / 262144, 0x80 + n / 4096 % 64, 0x80 + n / 64 % 64, 0x80 + n % 64]
  }

  /** `Buffer.from(s)`: the UTF-8 encoding of a string. */
  function Utf8(s: string): (bs: seq<byte>)
    ensures |bs| >= |s|
    ensures s == [] <==> bs == []
  {
    if s == [] then [] else Utf8Char(s[0]) + Utf8(s[1..])
  }

  /** The length of the UTF-8 sequence a lead byte starts. */
  function Utf8Width(lead: byte): nat
  {
    if lead < 0x80 then 1 else if lead < 0xE0 then 2 else if lead < 0xF0 then 3 else 4
  }

  /** The scalar value that a UTF-8 sequence starting at `bs[0]` encodes. */
  function Utf8DecodeFirst(bs: seq<byte>): int
    requires |bs| >= 1 && |bs| >= Utf8Width(bs[0])
  {
    var w := Utf8Width(bs[0]);
    if w == 1 then bs[0]
    else if w == 2 then (bs[0] as int - 0xC0) * 64 + (bs[1] as int - 0x80)
    else if w == 3 then
      (bs[0] as int - 0xE0) * 4096 + (bs[1] as int - 0x80) * 64 + (bs[2] as int - 0x80)
    else
      (bs[0] as int - 0xF0) * 262144 + (bs[1] as int - 0x80) * 4096
      + (bs[2] as int - 0x80) * 64 + (bs[3] as int - 0x80)
  }

  /** Dividing by 4096 is dividing by 64 twice, and by 262144 thrice: the
      six-bit groups of a UTF-8 encoding. */
  lemma DivideBy64Twice(n: int)
    requires n >= 0
    ensures n / 4096 == n / 64 / 64
    ensures n / 262144 == n / 4096 / 64
  {
  }

  /** The lead byte of a character's encoding announces its length, and the
      decoder recovers the character from it. */
  lemma Utf8CharDecodes(c: char)
    ensures |Utf8Char(c)| == Utf8Width(Utf8Char(c)[0])
    ensures Utf8DecodeFirst(Utf8Char(c)) == c as int
  {
    var n := c as int;
    DivideBy64Twice(n);
  }

  /** Distinct strings have distinct UTF-8 encodings. */
  lemma {:induction false} Utf8Injective(a: string, b: string)
    requires Utf8(a) == Utf8(b)
    ensures a == b
    decreases |a|
  {
    if a != [] {
      assert b != [];
      var ea, eb := Utf8Char(a[0]), Utf8Char(b[0]);
      assert Utf8(a) == ea + Utf8(a[1..]);
      assert Utf8(b) == eb + Utf8(b[1..]);
      Utf8CharDecodes(a[0]);
      Utf8CharDecodes(b[0]);
      assert Utf8(a)[0] == ea[0] && Utf8(b)[0] == eb[0];
      assert |ea| == |eb|;
      assert ea == Utf8(a)[..|ea|];
      assert eb == Utf8(b)[..|eb|];
      assert a[0] as int == b[0] as int;
      assert Utf8(a[1..]) == Utf8(a)[|ea|..];
      assert Utf8(b[1..]) == Utf8(b)[|eb|..];
      Utf8Injective(a[1..], b[1..]);
      assert a == [a[0]] + a[1..];
      assert b == [b[0]] + b[1..];
    }
  }

  // ---------------------------------------------------------------------
  // UTF-16, as counted by `String.prototype.length`

  /** The number of UTF-16 code units of a string: two for a character
      outside the Basic Multilingual Plane, one for any other. */
  function Utf16Length(s: string): (n: nat)
    ensures |s| <= n <= 2 * |s|
    ensures (forall i :: 0 <= i < |s| ==> s[i] as int < 0x10000) ==> n == |s|
  {
    if s == [] then 0
    else (if s[0] as int >= 0x10000 then 2 else 1) + Utf16Length(s[1..])
  }
}
