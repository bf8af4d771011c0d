/**
 * Base64 with the standard alphabet and `=` padding (RFC 4648, section 4),
 * as the `base64` crate's `BASE64_STANDARD` engine encodes and decodes it:
 * the decoder requires canonical padding and zero trailing bits.
 */
module Base64 {
  import opened Bytes
  import opened Wrappers
  import opened Common

  type sextet = x: int | 0 <= x < 0x40

  /** The character for a 6-bit value (RFC 4648, Table 1). */
  function Alphabet(i: sextet): (c: char)
    ensures c != '='
  {
    if i < 26 then ('A' as int + i) as char
    else if i < 52 then ('a' as int + (i - 26)) as char
    else if i < 62 then ('0' as int + (i - 52)) as char
    else if i == 62 then '+'
    else '/'
  }

  /** The 6-bit value of an alphabet character; `=` and every other character have none. */
  function Index(c: char): (r: Option<sextet>)
    ensures r.Some? ==> Alphabet(r.value) == c
  {
    if 'A' <= c <= 'Z' then Some(c as int - 'A' as int)
    else if 'a' <= c <= 'z' then Some(c as int - 'a' as int + 26)
    else if '0' <= c <= '9' then Some(c as int - '0' as int + 52)
    else if c == '+' then Some(62)
    else if c == '/' then Some(63)
    else None
  }

  lemma IndexOfAlphabet(i: sextet)
    ensures Index(Alphabet(i)) == Some(i)
  {
  }

  /** Three octets as four 6-bit values, most significant bits first. */
  function Sextets(b0: uint8, b1: uint8, b2: uint8): (sextet, sextet, sextet, sextet) {
    (b0 / 4, b0 % 4 * 16 + b1 / 16, b1 % 16 * 4 + b2 / 64, b2 % 64)
  }

  /** Four 6-bit values as three octets. */
  function Octets(i0: sextet, i1: sextet, i2: sextet, i3: sextet): (uint8, uint8, uint8) {
    (i0 * 4 + i1 / 16, i1 % 16 * 16 + i2 / 4, i2 % 4 * 64 + i3)
  }

  lemma DivMod4(q: int, r: int)
    requires 0 <= r < 4
    ensures (q * 4 + r) / 4 == q && (q * 4 + r) % 4 == r
  {
  }

  lemma DivMod16(q: int, r: int)
    requires 0 <= r < 16
    ensures (q * 16 + r) / 16 == q && (q * 16 + r) % 16 == r
  {
  }

  lemma OctetsOfSextets(b0: uint8, b1: uint8, b2: uint8)
    ensures var q := Sextets(b0, b1, b2); Octets(q.0, q.1, q.2, q.3) == (b0, b1, b2)
  {
    DivMod16(b0 % 4, b1 / 16);
    DivMod4(b1 % 16, b2 / 64);
  }

  lemma SextetsOfOctets(i0: sextet, i1: sextet, i2: sextet, i3: sextet)
    ensures var o := Octets(i0, i1, i2, i3); Sextets(o.0, o.1, o.2) == (i0, i1, i2, i3)
  {
    DivMod4(i0, i1 / 16);
    DivMod16(i1 % 16, i2 / 4);
    DivMod64(i2 % 4, i3);
  }

  /** Every three octets become four characters; a final one or two octets are padded with `=`. */
  function Encode(b: seq<uint8>): (r: string)
    ensures |r| == (|b| + 2) / 3 * 4
  {
    if |b| == 0 then []
    else if |b| == 1 then
      var q := Sextets(b[0], 0, 0);
      [Alphabet(q.0), Alphabet(q.1), '=', '=']
    else if |b| == 2 then
      var q := Sextets(b[0], b[1], 0);
      [Alphabet(q.0), Alphabet(q.1), Alphabet(q.2), '=']
    else
      var q := Sextets(b[0], b[1], b[2]);
      [Alphabet(q.0), Alphabet(q.1), Alphabet(q.2), Alphabet(q.3)] + Encode(b[3..])
  }

  /**
   * One group of four characters. Only the `last` group of the input may
   * end in padding, and then the bits the padding leaves over must be zero.
   */
  function DecodeGroup(c0: char, c1: char, c2: char, c3: char, last: bool): (r: Option<seq<uint8>>)
    ensures r.Some? ==> 1 <= |r.value| <= 3
  {
    var i0, i1, i2, i3 := Index(c0), Index(c1), Index(c2), Index(c3);
    if i0.None? || i1.None? then None
    else if last && c2 == '=' && c3 == '=' then
      var o := Octets(i0.value, i1.value, 0, 0);
      if o.1 == 0 then Some([o.0]) else None
    else if last && i2.Some? && c3 == '=' then
      var o := Octets(i0.value, i1.value, i2.value, 0);
      if o.2 == 0 then Some([o.0, o.1]) else None
    else if i2.None? || i3.None? then None
    else
      var o := Octets(i0.value, i1.value, i2.value, i3.value);
      Some([o.0, o.1, o.2])
  }

  /** The decoder: None for a wrong length, a foreign character, misplaced padding or non-zero trailing bits. */
  function Decode(s: string): Option<seq<uint8>>
    decreases |s|
  {
    if |s| == 0 then Some([])
    else if |s| < 4 then None
    else match DecodeGroup(s[0], s[1], s[2], s[3], |s| == 4)
      case None => None
      case Some(g) =>
        match Decode(s[4..])
        case None => None
        case Some(rest) => Some(g + rest)
  }

  lemma DecodeEncodeOne(b0: uint8)
    ensures Decode(Encode([b0])) == Some([b0])
  {
    var q := Sextets(b0, 0, 0);
    IndexOfAlphabet(q.0);
    IndexOfAlphabet(q.1);
    OctetsOfSextets(b0, 0, 0);
    var s := Encode([b0]);
    assert s == [Alphabet(q.0), Alphabet(q.1), '=', '='];
    assert DecodeGroup(s[0], s[1], s[2], s[3], true) == Some([b0]);
    assert s[4..] == [];
    assert [b0] + [] == [b0];
  }

  lemma DecodeEncodeTwo(b0: uint8, b1: uint8)
    ensures Decode(Encode([b0, b1])) == Some([b0, b1])
  {
    var q := Sextets(b0, b1, 0);
    IndexOfAlphabet(q.0);
    IndexOfAlphabet(q.1);
    IndexOfAlphabet(q.2);
    OctetsOfSextets(b0, b1, 0);
    var s := Encode([b0, b1]);
    assert s == [Alphabet(q.0), Alphabet(q.1), Alphabet(q.2), '='];
    assert DecodeGroup(s[0], s[1], s[2], s[3], true) == Some([b0, b1]);
    assert s[4..] == [];
    assert [b0, b1] + [] == [b0, b1];
  }

  lemma DecodeGroupOfSextets(b0: uint8, b1: uint8, b2: uint8, last: bool)
    ensures var q := Sextets(b0, b1, b2);
      DecodeGroup(Alphabet(q.0), Alphabet(q.1), Alphabet(q.2), Alphabet(q.3), last) == Some([b0, b1, b2])
  {
    var q := Sextets(b0, b1, b2);
    IndexOfAlphabet(q.0);
    IndexOfAlphabet(q.1);
    IndexOfAlphabet(q.2);
    IndexOfAlphabet(q.3);
    OctetsOfSextets(b0, b1, b2);
  }

  lemma EncodeStep(b: seq<uint8>)
    requires |b| >= 3
    ensures var q := Sextets(b[0], b[1], b[2]);
      Encode(b) == [Alphabet(q.0), Alphabet(q.1), Alphabet(q.2), Alphabet(q.3)] + Encode(b[3..])
  {
  }

  lemma DecodeStep(s: string, g: seq<uint8>, rest: seq<uint8>)
    requires |s| >= 4
    requires DecodeGroup(s[0], s[1], s[2], s[3], |s| == 4) == Some(g)
    requires Decode(s[4..]) == Some(rest)
    ensures Decode(s) == Some(g + rest)
  {
  }

  lemma SplitThree(b: seq<uint8>)
    requires |b| >= 3
    ensures b == [b[0], b[1], b[2]] + b[3..]
  {
  }

  /** Three more octets in front of a part that round-trips still round-trip. */
  lemma DecodeEncodeGroup(b: seq<uint8>)
    requires |b| >= 3 && Decode(Encode(b[3..])) == Some(b[3..])
    ensures Decode(Encode(b)) == Some(b)
  {
    var s := Encode(b);
    EncodeStep(b);
    DecodeGroupOfSextets(b[0], b[1], b[2], |s| == 4);
    DecodeStep(s, [b[0], b[1], b[2]], b[3..]);
    SplitThree(b);
  }

  /** Decoding the encoding of `b` gives `b` back. */
  lemma {:induction false} DecodeEncode(b: seq<uint8>)
    ensures Decode(Encode(b)) == Some(b)
    decreases |b|
  {
    if |b| == 1 {
      DecodeEncodeOne(b[0]);
      assert b == [b[0]];
    } else if |b| == 2 {
      DecodeEncodeTwo(b[0], b[1]);
      assert b == [b[0], b[1]];
    } else if |b| >= 3 {
      DecodeEncode(b[3..]);
      DecodeEncodeGroup(b);
    }
  }

  lemma EncodeOfDecodeGroup(c0: char, c1: char, c2: char, c3: char, last: bool)
    requires DecodeGroup(c0, c1, c2, c3, last).Some?
    ensures var g := DecodeGroup(c0, c1, c2, c3, last).value;
      Encode(g) == [c0, c1, c2, c3] && (|g| < 3 ==> last)
  {
    var i0, i1 := Index(c0).value, Index(c1).value;
    if last && c2 == '=' && c3 == '=' {
      SextetsOfOctets(i0, i1, 0, 0);
    } else if last && Index(c2).Some? && c3 == '=' {
      SextetsOfOctets(i0, i1, Index(c2).value, 0);
    } else {
      SextetsOfOctets(i0, i1, Index(c2).value, Index(c3).value);
      var g := DecodeGroup(c0, c1, c2, c3, last).value;
      assert g[3..] == [];
    }
  }

  lemma EncodeConcat(g: seq<uint8>, rest: seq<uint8>)
    requires |g| == 3
    ensures Encode(g + rest) == Encode(g) + Encode(rest)
  {
    assert (g + rest)[3..] == rest;
    assert g[3..] == [];
  }

  lemma SplitFour(s: string)
    requires |s| >= 4
    ensures s == [s[0], s[1], s[2], s[3]] + s[4..]
  {
  }

  /** A decodable string whose tail after the first group round-trips round-trips itself. */
  lemma EncodeDecodeGroup(s: string)
    requires |s| >= 4 && Decode(s).Some? && Decode(s[4..]).Some?
    requires Encode(Decode(s[4..]).value) == s[4..]
    ensures Encode(Decode(s).value) == s
  {
    var g := DecodeGroup(s[0], s[1], s[2], s[3], |s| == 4).value;
    EncodeOfDecodeGroup(s[0], s[1], s[2], s[3], |s| == 4);
    var rest := Decode(s[4..]).value;
    if |s| == 4 {
      assert rest == [];
      assert g + rest == g;
    } else {
      EncodeConcat(g, rest);
    }
    SplitFour(s);
  }

  /** Whatever `Decode` accepts is the encoding of what it returns. */
  lemma {:induction false} EncodeDecode(s: string)
    requires Decode(s).Some?
    ensures Encode(Decode(s).value) == s
    decreases |s|
  {
    if |s| != 0 {
      EncodeDecode(s[4..]);
      EncodeDecodeGroup(s);
    }
  }
}
