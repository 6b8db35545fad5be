/**
 * Percent-encoding as the canonical request uses it (src/jira/util/jwt.ts, encodeRfc3986): `encodeURIComponent`
 * followed by two replacements, compared with sections 2.1 and 2.3 of RFC 3986.
 */
module PercentEncoding {
  import Decimal

  /** Every character of `s` replaced by its image. */
  function FlatMap(f: char -> string, s: string): string {
    if s == "" then "" else f(s[0]) + FlatMap(f, s[1..])
  }

  // ---- UTF-8 --------------------------------------------------------------------------------------------------------

  type Byte = b: int | 0 <= b < 256

  function Utf8(c: char): (bytes: seq<Byte>)
    ensures 1 <= |bytes| <= 4
    ensures |bytes| == Utf8Length(bytes[0])
  {
    var code := c as int;
    if code < 0x80 then [code]
    else if code < 0x800 then [0xC0 + code / 0x40, 0x80 + code % 0x40]
    else if code < 0x10000 then [0xE0 + code / 0x1000, 0x80 + code / 0x40 % 0x40, 0x80 + code % 0x40]
    else [0xF0 + code / 0x40000, 0x80 + code / 0x1000 % 0x40, 0x80 + code / 0x40 % 0x40, 0x80 + code % 0x40]
  }

  /** The first byte says how many there are. */
  function Utf8Length(first: Byte): nat {
    if first < 0xC0 then 1 else if first < 0xE0 then 2 else if first < 0xF0 then 3 else 4
  }

  lemma Utf8Injective(c: char, d: char)
    requires Utf8(c) == Utf8(d)
    ensures c == d
  {
    var a, b := Utf8(c), Utf8(d);
    assert a[0] == b[0];
    if |a| == 2 {
      assert a[1] == b[1];
    } else if |a| == 3 {
      assert a[1] == b[1] && a[2] == b[2];
      ThreeDigits(c as int, d as int);
    } else if |a| == 4 {
      assert a[1] == b[1] && a[2] == b[2] && a[3] == b[3];
      assert c as int / 0x1000 == d as int / 0x1000 by {
        assert c as int / 0x40000 == c as int / 0x1000 / 0x40 && d as int / 0x40000 == d as int / 0x1000 / 0x40;
      }
      ThreeDigits(c as int, d as int);
    }
    assert c as int == d as int;
  }

  lemma ThreeDigits(x: nat, y: nat)
    requires x / 0x1000 == y / 0x1000 && x / 0x40 % 0x40 == y / 0x40 % 0x40 && x % 0x40 == y % 0x40
    ensures x == y
  {
    assert x / 0x1000 == x / 0x40 / 0x40 && y / 0x1000 == y / 0x40 / 0x40;
  }

  // ---- Percent signs ------------------------------------------------------------------------------------------------

  const HEX_DIGITS := "0123456789ABCDEF"

  function Hex(d: nat): (c: char)
    requires d < 16
    ensures '0' <= c <= '9' || 'A' <= c <= 'F'
  {
    HEX_DIGITS[d]
  }

  lemma HexInjective(d: nat, e: nat)
    requires d < 16 && e < 16 && Hex(d) == Hex(e)
    ensures d == e
  {
  }

  function PercentByte(b: Byte): string {
    ['%', Hex(b / 16), Hex(b % 16)]
  }

  function Percent(bytes: seq<Byte>): (s: string)
    ensures |s| == 3 * |bytes|
  {
    if bytes == [] then "" else PercentByte(bytes[0]) + Percent(bytes[1..])
  }

  lemma {:induction false} PercentInjective(a: seq<Byte>, b: seq<Byte>)
    requires Percent(a) == Percent(b)
    ensures a == b
  {
    if a != [] {
      var s := Percent(a);
      assert |b| == |a|;
      assert s[1] == Hex(a[0] / 16) == Hex(b[0] / 16);
      assert s[2] == Hex(a[0] % 16) == Hex(b[0] % 16);
      HexInjective(a[0] / 16, b[0] / 16);
      HexInjective(a[0] % 16, b[0] % 16);
      assert s[3..] == Percent(a[1..]) && s[3..] == Percent(b[1..]);
      PercentInjective(a[1..], b[1..]);
    }
  }

  // ---- What the code does -------------------------------------------------------------------------------------------

  predicate IsAsciiAlnum(c: char) {
    'a' <= c <= 'z' || 'A' <= c <= 'Z' || Decimal.IsDigit(c)
  }

  function EncodeUriComponentChar(c: char): string {
    if IsAsciiAlnum(c) || c in "-_.!~*'()" then [c] else Percent(Utf8(c))
  }

  /** The replacement by the global function `escape`. */
  function EscapeMark(c: char): string {
    if c in "!'()" then PercentByte(c as int) else [c]
  }

  function EscapeStar(c: char): string {
    if c == '*' then "%2A" else [c]
  }

  function EncodeRfc3986(value: string): string {
    FlatMap(EscapeStar, FlatMap(EscapeMark, FlatMap(EncodeUriComponentChar, value)))
  }

  // ---- What it should do --------------------------------------------------------------------------------------------

  /** Section 2.3 of RFC 3986. */
  predicate IsUnreserved(c: char) {
    IsAsciiAlnum(c) || c in "-._~"
  }

  /** Section 2.1 of RFC 3986, on the UTF-8 bytes of the character. */
  function EncodeChar(c: char): string {
    if IsUnreserved(c) then [c] else Percent(Utf8(c))
  }

  lemma {:induction false} FlatMapConcat(f: char -> string, a: string, b: string)
    ensures FlatMap(f, a + b) == FlatMap(f, a) + FlatMap(f, b)
  {
    if a == "" {
      assert a + b == b;
    } else {
      assert (a + b)[1..] == a[1..] + b;
      FlatMapConcat(f, a[1..], b);
    }
  }

  lemma {:induction false} FlatMapSame(f: char -> string, s: string)
    requires forall c | c in s :: f(c) == [c]
    ensures FlatMap(f, s) == s
  {
    if s != "" {
      FlatMapSame(f, s[1..]);
    }
  }

  lemma {:induction false} PercentChars(bytes: seq<Byte>)
    ensures forall c | c in Percent(bytes) :: c == '%' || Decimal.IsDigit(c) || 'A' <= c <= 'F'
  {
    if bytes != [] {
      PercentChars(bytes[1..]);
    }
  }

  lemma EscapedByte(bytes: seq<Byte>)
    ensures FlatMap(EscapeStar, FlatMap(EscapeMark, Percent(bytes))) == Percent(bytes)
  {
    PercentChars(bytes);
    FlatMapSame(EscapeMark, Percent(bytes));
    FlatMapSame(EscapeStar, Percent(bytes));
  }

  lemma EscapedMark(c: char)
    requires c in "!'()"
    ensures FlatMap(EscapeStar, EscapeMark(c)) == EncodeChar(c)
  {
    assert Percent([c as int]) == PercentByte(c as int);
    PercentChars([c as int]);
    FlatMapSame(EscapeStar, EscapeMark(c));
  }

  lemma EscapedChar(c: char)
    ensures FlatMap(EscapeStar, FlatMap(EscapeMark, EncodeUriComponentChar(c))) == EncodeChar(c)
  {
    hide FlatMap, Percent;
    if !(IsAsciiAlnum(c) || c in "-_.!~*'()") {
      EscapedByte(Utf8(c));
    } else {
      OneChar(EscapeMark, c);
      if c in "!'()" {
        EscapedMark(c);
      } else {
        OneChar(EscapeStar, c);
        if c == '*' {
          StarIsEncoded();
        }
      }
    }
  }

  lemma StarIsEncoded()
    ensures EncodeChar('*') == "%2A"
  {
    assert Utf8('*') == [0x2A];
    assert PercentByte(0x2A) == "%2A";
  }

  lemma OneChar(f: char -> string, c: char)
    ensures FlatMap(f, [c]) == f(c)
  {
    assert [c][1..] == "";
  }

  // The three passes together encode exactly the characters that are not unreserved.
  lemma {:induction false} EncodesReserved(value: string)
    ensures EncodeRfc3986(value) == FlatMap(EncodeChar, value)
  {
    hide EncodeUriComponentChar, EscapeMark, EscapeStar, EncodeChar;
    if value != "" {
      var first, rest := EncodeUriComponentChar(value[0]), FlatMap(EncodeUriComponentChar, value[1..]);
      EncodesReserved(value[1..]);
      EscapedChar(value[0]);
      FlatMapConcat(EscapeMark, first, rest);
      FlatMapConcat(EscapeStar, FlatMap(EscapeMark, first), FlatMap(EscapeMark, rest));
    }
  }

  /** The characters of encoded text. */
  predicate IsEncodedChar(c: char) {
    IsUnreserved(c) || c == '%'
  }

  // Encoded text holds nothing but unreserved characters and percent signs: none of `&`, `=` and `,`.
  lemma {:induction false} EncodedChars(value: string)
    ensures forall c | c in EncodeRfc3986(value) :: IsEncodedChar(c)
  {
    EncodesReserved(value);
    if value != "" {
      EncodedChars(value[1..]);
      EncodesReserved(value[1..]);
      PercentChars(Utf8(value[0]));
    }
  }

  lemma EncodeCharPrefixFree(c: char, d: char, x: string, y: string)
    requires EncodeChar(c) + x == EncodeChar(d) + y
    ensures c == d && x == y
  {
    var both := EncodeChar(c) + x;
    assert both[0] == EncodeChar(c)[0] == EncodeChar(d)[0];
    if !IsUnreserved(c) {
      var a, b := Utf8(c), Utf8(d);
      assert both[1] == Hex(a[0] / 16) == Hex(b[0] / 16);
      assert both[2] == Hex(a[0] % 16) == Hex(b[0] % 16);
      HexInjective(a[0] / 16, b[0] / 16);
      HexInjective(a[0] % 16, b[0] % 16);
      assert a[0] == b[0];
      assert Percent(a) == both[..3 * |a|] == Percent(b);
      PercentInjective(a, b);
      Utf8Injective(c, d);
    }
    assert x == both[|EncodeChar(c)|..] && y == both[|EncodeChar(d)|..];
  }

  // Encoding loses nothing.
  lemma {:induction false} EncodingIsInjective(a: string, b: string)
    requires EncodeRfc3986(a) == EncodeRfc3986(b)
    ensures a == b
  {
    hide EncodeRfc3986, EncodeChar;
    EncodesReserved(a);
    EncodesReserved(b);
    if a != "" && b != "" {
      EncodeCharPrefixFree(a[0], b[0], FlatMap(EncodeChar, a[1..]), FlatMap(EncodeChar, b[1..]));
      EncodesReserved(a[1..]);
      EncodesReserved(b[1..]);
      EncodingIsInjective(a[1..], b[1..]);
    }
    EncodedLength(a);
    EncodedLength(b);
  }

  lemma EncodedLength(s: string)
    ensures FlatMap(EncodeChar, s) == "" <==> s == ""
  {
  }
}
