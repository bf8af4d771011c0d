/**
 * UTF-8 as Rust's strings use it (RFC 3629, section 3): `str::as_bytes`
 * is `Encode`, `String::from_utf8` is `Decode`. A Dafny `char` is a Unicode
 * scalar value, so every string has exactly one encoding.
 */
module Utf8 {
  import opened Bytes
  import opened Wrappers
  import opened Common

  predicate IsContinuation(b: uint8) {
    0x80 <= b < 0xC0
  }

  /** The one to four octets that encode `c`. */
  function EncodeChar(c: char): (r: seq<uint8>)
    ensures 1 <= |r| <= 4
    ensures r[0] < 0x80 <==> |r| == 1
    ensures forall i :: 1 <= i < |r| ==> IsContinuation(r[i])
  {
    var n := c as int;
    if n < 0x80 then [n]
    else if n < 0x800 then [0xC0 + n / 0x40, 0x80 + n % 0x40]
    else if n < 0x1_0000 then [0xE0 + n / 0x1000, 0x80 + n / 0x40 % 0x40, 0x80 + n % 0x40]
    else [0xF0 + n / 0x4_0000, 0x80 + n / 0x1000 % 0x40, 0x80 + n / 0x40 % 0x40, 0x80 + n % 0x40]
  }

  function Encode(s: string): (r: seq<uint8>)
    ensures |r| >= |s|
  {
    if s == [] then [] else EncodeChar(s[0]) + Encode(s[1..])
  }

  predicate IsScalar(n: int) {
    0 <= n < 0xD800 || 0xE000 <= n < 0x11_0000
  }

  /**
   * The scalar value that `b` begins with and the number of octets it
   * takes, or None when `b` does not begin with a well-formed sequence
   * (a stray continuation octet, a truncated sequence, an overlong form,
   * a surrogate, or a value above U+10FFFF).
   */
  function DecodeChar(b: seq<uint8>): (r: Option<(char, nat)>)
    requires |b| > 0
    ensures r.Some? ==> 1 <= r.value.1 <= |b| && r.value.1 <= 4
  {
    var b0: int := b[0];
    if b0 < 0x80 then
      Some((b0 as char, 1))
    else if 0xC2 <= b0 < 0xE0 then
      if |b| < 2 || !IsContinuation(b[1]) then None
      else Some((((b0 - 0xC0) * 0x40 + (b[1] as int - 0x80)) as char, 2))
    else if 0xE0 <= b0 < 0xF0 then
      if |b| < 3 || !IsContinuation(b[1]) || !IsContinuation(b[2]) then None
      else
        var n := (b0 - 0xE0) * 0x1000 + (b[1] as int - 0x80) * 0x40 + (b[2] as int - 0x80);
        if n < 0x800 || 0xD800 <= n < 0xE000 then None else Some((n as char, 3))
    else if 0xF0 <= b0 < 0xF5 then
      if |b| < 4 || !IsContinuation(b[1]) || !IsContinuation(b[2]) || !IsContinuation(b[3]) then None
      else
        var n := (b0 - 0xF0) * 0x4_0000 + (b[1] as int - 0x80) * 0x1000 + (b[2] as int - 0x80) * 0x40 + (b[3] as int - 0x80);
        if n < 0x1_0000 || 0x11_0000 <= n then None else Some((n as char, 4))
    else
      None
  }

  function Decode(b: seq<uint8>): Option<string>
    decreases |b|
  {
    if b == [] then Some([])
    else match DecodeChar(b)
      case None => None
      case Some((c, k)) =>
        match Decode(b[k..])
        case None => None
        case Some(s) => Some([c] + s)
  }

  /** `n` as base-64 digits: the split `EncodeChar` performs. */
  lemma SplitDigits(n: int)
    requires 0 <= n < 0x11_0000
    ensures n % 0x40 + (n / 0x40 % 0x40) * 0x40 + (n / 0x1000 % 0x40) * 0x1000 + (n / 0x4_0000) * 0x4_0000 == n
    ensures n / 0x40 % 0x40 + (n / 0x1000) * 0x40 == n / 0x40
    ensures n / 0x1000 % 0x40 + (n / 0x4_0000) * 0x40 == n / 0x1000
  {
  }

  /** Base-64 digits joined back: the sum `DecodeChar` computes. */
  lemma JoinDigits(a: int, b: int, c: int, d: int)
    requires 0 <= a && 0 <= b < 0x40 && 0 <= c < 0x40 && 0 <= d < 0x40
    ensures var n := a * 0x4_0000 + b * 0x1000 + c * 0x40 + d;
      n % 0x40 == d && n / 0x40 % 0x40 == c && n / 0x1000 % 0x40 == b && n / 0x4_0000 == a
  {
    var n := a * 0x4_0000 + b * 0x1000 + c * 0x40 + d;
    var m := a * 0x1000 + b * 0x40 + c;
    assert n == m * 0x40 + d;
    DivMod64(m, d);
    var k := a * 0x40 + b;
    assert m == k * 0x40 + c;
    DivMod64(k, c);
    DivMod64(a, b);
    assert n / 0x1000 == n / 0x40 / 0x40;
    assert n / 0x4_0000 == n / 0x1000 / 0x40;
  }

  lemma DecodeCharOfEncodeChar(c: char, rest: seq<uint8>)
    ensures DecodeChar(EncodeChar(c) + rest) == Some((c, |EncodeChar(c)|))
  {
    var n := c as int;
    var b := EncodeChar(c) + rest;
    SplitDigits(n);
    if n < 0x80 {
    } else if n < 0x800 {
      assert (b[0] as int - 0xC0) * 0x40 + (b[1] as int - 0x80) == n;
    } else if n < 0x1_0000 {
      assert (b[0] as int - 0xE0) * 0x1000 + (b[1] as int - 0x80) * 0x40 + (b[2] as int - 0x80) == n;
    } else {
      assert (b[0] as int - 0xF0) * 0x4_0000 + (b[1] as int - 0x80) * 0x1000 + (b[2] as int - 0x80) * 0x40 + (b[3] as int - 0x80) == n;
    }
  }

  /** Decoding an encoding gives the string back. */
  lemma {:induction false} DecodeEncode(s: string)
    ensures Decode(Encode(s)) == Some(s)
  {
    if s != [] {
      var e := EncodeChar(s[0]);
      var rest := Encode(s[1..]);
      DecodeCharOfEncodeChar(s[0], rest);
      assert (e + rest)[|e|..] == rest;
      DecodeEncode(s[1..]);
      assert [s[0]] + s[1..] == s;
    }
  }

  lemma EncodeCharOfDecodeChar(b: seq<uint8>)
    requires |b| > 0 && DecodeChar(b).Some?
    ensures EncodeChar(DecodeChar(b).value.0) == b[..DecodeChar(b).value.1]
  {
    var b0: int := b[0];
    if b0 < 0x80 {
    } else if b0 < 0xE0 {
      JoinDigits(0, 0, b0 - 0xC0, b[1] as int - 0x80);
    } else if b0 < 0xF0 {
      JoinDigits(0, b0 - 0xE0, b[1] as int - 0x80, b[2] as int - 0x80);
    } else {
      JoinDigits(b0 - 0xF0, b[1] as int - 0x80, b[2] as int - 0x80, b[3] as int - 0x80);
    }
  }

  /** Whatever `Decode` accepts is the encoding of what it returns. */
  lemma {:induction false} EncodeDecode(b: seq<uint8>)
    requires Decode(b).Some?
    ensures Encode(Decode(b).value) == b
    decreases |b|
  {
    if b != [] {
      var k := DecodeChar(b).value.1;
      EncodeCharOfDecodeChar(b);
      EncodeDecode(b[k..]);
      assert b[..k] + b[k..] == b;
    }
  }

  /** Distinct strings have distinct encodings. */
  lemma EncodeInjective(s: string, t: string)
    requires Encode(s) == Encode(t)
    ensures s == t
  {
    DecodeEncode(s);
    DecodeEncode(t);
  }
}
