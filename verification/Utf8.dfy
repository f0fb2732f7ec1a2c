// UTF-8 (RFC 3629), as far as the hashed byte streams need it: no encoded string holds
// the byte 0xFF, none but NUL holds the byte 0, and the encoding is injective.
module Utf8 {

  type Byte = b: int | 0 <= b < 256

  function EncodeChar(c: char): (r: seq<Byte>)
    ensures r != []
  {
    var n := c as int;
    if n < 0x80 then [n]
    else if n < 0x800 then [0xC0 + n / 64, 0x80 + n % 64]
    else if n < 0x10000 then [0xE0 + n / 4096, 0x80 + n / 64 % 64, 0x80 + n % 64]
    else [0xF0 + n / 262144, 0x80 + n / 4096 % 64, 0x80 + n / 64 % 64, 0x80 + n % 64]
  }

  function Encode(s: string): seq<Byte> {
    if s == [] then [] else EncodeChar(s[0]) + Encode(s[1..])
  }

  function Low(high: int, b: Byte): int { high * 64 + (b as int - 0x80) }

  /** The code point of an encoded character: the bits that RFC 3629, section 3, gives to each
      byte, by the number of bytes. */
  function CodePoint(b: seq<Byte>): int {
    if |b| == 1 then b[0]
    else if |b| == 2 then Low(b[0] as int - 0xC0, b[1])
    else if |b| == 3 then Low(Low(b[0] as int - 0xE0, b[1]), b[2])
    else if |b| == 4 then Low(Low(Low(b[0] as int - 0xF0, b[1]), b[2]), b[3])
    else -1
  }

  /** Length, markers and bits of an encoded character are those of the standard. */
  lemma CharEncodes(c: char)
    ensures var b, n := EncodeChar(c), c as int;
            && CodePoint(b) == n
            && |b| == (if n <= 0x7F then 1 else if n <= 0x7FF then 2 else if n <= 0xFFFF then 3 else 4)
            && (|b| == 2 ==> 0xC2 <= b[0] <= 0xDF) && (|b| == 3 ==> 0xE0 <= b[0] <= 0xEF)
            && (|b| == 4 ==> 0xF0 <= b[0] <= 0xF4)
            && forall i :: 0 < i < |b| ==> 0x80 <= b[i] <= 0xBF
  {
    Digits(c as int);
  }

  /** No NUL: what the fields of the hashed streams are assumed to be. */
  predicate NulFree(s: string) {
    forall i :: 0 <= i < |s| ==> s[i] as int != 0
  }

  predicate Clean(b: seq<Byte>) {
    forall i :: 0 <= i < |b| ==> b[i] != 0 && b[i] != 0xFF
  }

  lemma {:induction false} EncodedIsClean(s: string)
    requires NulFree(s)
    ensures Clean(Encode(s))
  {
    if s != [] {
      EncodedIsClean(s[1..]);
    }
  }

  lemma SameLength(a: char, b: char, x: seq<Byte>, y: seq<Byte>)
    requires EncodeChar(a) + x == EncodeChar(b) + y
    ensures |EncodeChar(a)| == |EncodeChar(b)|
  {
    assert EncodeChar(a)[0] == (EncodeChar(a) + x)[0];
    assert EncodeChar(b)[0] == (EncodeChar(b) + y)[0];
  }

  lemma CharIsPrefixCode(a: char, b: char, x: seq<Byte>, y: seq<Byte>)
    requires EncodeChar(a) + x == EncodeChar(b) + y
    ensures a == b && x == y
  {
    SameLength(a, b, x, y);
    var k := |EncodeChar(a)|;
    assert EncodeChar(a) == (EncodeChar(a) + x)[..k] && x == (EncodeChar(a) + x)[k..];
    assert EncodeChar(b) == (EncodeChar(b) + y)[..k] && y == (EncodeChar(b) + y)[k..];
    CharInjective(a, b);
  }

  /** A code point is determined by its six-bit digits. */
  lemma Digits(n: nat)
    ensures n == n / 64 * 64 + n % 64
    ensures n / 64 == n / 4096 * 64 + n / 64 % 64
    ensures n / 4096 == n / 262144 * 64 + n / 4096 % 64
  {
  }

  lemma CharInjective(a: char, b: char)
    requires EncodeChar(a) == EncodeChar(b)
    ensures a == b
  {
    var e, f, m, n := EncodeChar(a), EncodeChar(b), a as int, b as int;
    Digits(m);
    Digits(n);
    assert e[0] == f[0];
    if |e| == 2 {
      assert e[1] == f[1];
    } else if |e| == 3 {
      assert e[1] == f[1] && e[2] == f[2];
    } else if |e| == 4 {
      assert e[1] == f[1] && e[2] == f[2] && e[3] == f[3];
    }
    assert m == n;
    assert a == m as char && b == n as char;
  }

  /** Equal encodings come from equal strings. */
  lemma {:induction false} EncodeInjective(s: string, t: string)
    requires Encode(s) == Encode(t)
    ensures s == t
  {
    if s == [] || t == [] {
    } else {
      CharIsPrefixCode(s[0], t[0], Encode(s[1..]), Encode(t[1..]));
      EncodeInjective(s[1..], t[1..]);
      assert s == [s[0]] + s[1..] && t == [t[0]] + t[1..];
    }
  }
}
