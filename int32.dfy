/**
 * Rust's `i32` as the status attribute uses it: `str::parse::<i32>`,
 * `i32::from_be_bytes`, two's-complement `&`, and `i32::to_string` and
 * `i32::to_be_bytes` as the inverses the parsers are proved against.
 */
module Int32 {
  import opened Bytes
  import opened Wrappers
  import opened Errors

  const MIN: int := -0x8000_0000
  const MAX: int := 0x7FFF_FFFF

  type int32 = x: int | -0x8000_0000 <= x < 0x8000_0000

  predicate IsDigit(c: char) {
    '0' <= c <= '9'
  }

  /** The decimal digit characters, from `0` to `9`. */
  function Digit(d: int): (c: char)
    requires 0 <= d < 10
    ensures IsDigit(c) && c as int - '0' as int == d
  {
    ('0' as int + d) as char
  }

  /**
   * One step of `core::num`'s `from_str_radix` for base ten: the character
   * must be a digit (checked first), and `acc * 10 + digit` (or `- digit`
   * for a negative number) must stay within the `i32` range.
   */
  function Step(acc: int32, c: char, negative: bool): Result<int32, IntErrorKind> {
    if !IsDigit(c) then Err(InvalidDigit)
    else
      var d := c as int - '0' as int;
      var next := if negative then acc * 10 - d else acc * 10 + d;
      if next < MIN then Err(NegOverflow)
      else if next > MAX then Err(PosOverflow)
      else Ok(next)
  }

  /** Digits consumed left to right; the first failing step decides the error. */
  function Accumulate(ds: string, acc: int32, negative: bool): Result<int32, IntErrorKind>
    decreases |ds|
  {
    if ds == [] then Ok(acc)
    else match Step(acc, ds[0], negative)
      case Err(e) => Err(e)
      case Ok(next) => Accumulate(ds[1..], next, negative)
  }

  /** `str::parse::<i32>`: an optional `+` or `-`, then at least one decimal digit. */
  function ParseI32(s: string): Result<int32, IntErrorKind> {
    if s == [] then Err(Empty)
    else if (s[0] == '+' || s[0] == '-') && |s| == 1 then Err(InvalidDigit)
    else if s[0] == '+' then Accumulate(s[1..], 0, false)
    else if s[0] == '-' then Accumulate(s[1..], 0, true)
    else Accumulate(s, 0, false)
  }

  /** The decimal digits of `n`, without leading zeros. */
  function FormatNat(n: nat): (r: string)
    ensures |r| > 0
    decreases n
  {
    if n < 10 then [Digit(n)] else FormatNat(n / 10) + [Digit(n % 10)]
  }

  /** `i32::to_string`. */
  function FormatI32(n: int32): string {
    if n < 0 then "-" + FormatNat(-(n as int)) else FormatNat(n)
  }

  /** A string of the shape `parse::<i32>` accepts, ignoring range. */
  predicate IsDecimal(s: string) {
    var start := if |s| > 0 && (s[0] == '+' || s[0] == '-') then 1 else 0;
    start < |s| && forall i :: start <= i < |s| ==> IsDigit(s[i])
  }

  lemma {:induction false} AccumulateSnoc(ds: string, c: char, acc: int32, negative: bool)
    ensures Accumulate(ds + [c], acc, negative) ==
      match Accumulate(ds, acc, negative)
      case Err(e) => Err(e)
      case Ok(v) => Step(v, c, negative)
    decreases |ds|
  {
    if ds == [] {
      assert [c][1..] == [];
    } else {
      assert (ds + [c])[1..] == ds[1..] + [c];
      match Step(acc, ds[0], negative)
      case Err(_) =>
      case Ok(next) => AccumulateSnoc(ds[1..], c, next, negative);
    }
  }

  lemma {:induction false} AccumulateFormatNat(n: nat, negative: bool)
    requires if negative then n <= -MIN else n <= MAX
    ensures Accumulate(FormatNat(n), 0, negative) == Ok(if negative then -(n as int) else n)
    decreases n
  {
    if n < 10 {
      assert [Digit(n)][1..] == [];
    } else {
      AccumulateFormatNat(n / 10, negative);
      AccumulateSnoc(FormatNat(n / 10), Digit(n % 10), 0, negative);
    }
  }

  /** Parsing what `i32::to_string` prints gives the number back. */
  lemma ParseFormat(n: int32)
    ensures ParseI32(FormatI32(n)) == Ok(n)
  {
    if n < 0 {
      AccumulateFormatNat(-(n as int), true);
      assert FormatI32(n)[1..] == FormatNat(-(n as int));
    } else {
      AccumulateFormatNat(n, false);
    }
  }

  lemma {:induction false} AccumulateOnlyDigits(ds: string, acc: int32, negative: bool)
    requires Accumulate(ds, acc, negative).Ok?
    ensures forall i :: 0 <= i < |ds| ==> IsDigit(ds[i])
    decreases |ds|
  {
    if ds != [] {
      AccumulateOnlyDigits(ds[1..], Step(acc, ds[0], negative).value, negative);
      assert forall i :: 1 <= i < |ds| ==> ds[i] == ds[1..][i - 1];
    }
  }

  /** Only an optional sign followed by one or more decimal digits parses. */
  lemma ParseOnlyDecimal(s: string)
    requires ParseI32(s).Ok?
    ensures IsDecimal(s)
  {
    if s[0] == '+' || s[0] == '-' {
      AccumulateOnlyDigits(s[1..], 0, s[0] == '-');
      assert forall i :: 1 <= i < |s| ==> s[i] == s[1..][i - 1];
    } else {
      AccumulateOnlyDigits(s, 0, false);
    }
  }

  /** The number the digits `ds` spell in base ten, most significant first. */
  function DigitsValue(ds: string): (v: int)
    requires forall i :: 0 <= i < |ds| ==> IsDigit(ds[i])
    ensures v >= 0 && (ds == [] ==> v == 0)
    decreases |ds|
  {
    if ds == [] then 0
    else
      var c := ds[|ds| - 1];
      assert IsDigit(c);
      DigitsValue(ds[..|ds| - 1]) * 10 + (c as int - '0' as int)
  }

  /** The value of an optionally signed numeral: its sign applied to its digits, leading zeros allowed. */
  function SignedDecimalValue(s: string): (v: int)
    requires IsDecimal(s)
    ensures s[0] == '-' ==> v <= 0
    ensures s[0] != '-' ==> v >= 0
  {
    if s[0] == '-' then -DigitsValue(s[1..])
    else if s[0] == '+' then DigitsValue(s[1..])
    else DigitsValue(s)
  }

  /** What parsing a value `v` ends in: the value when it fits, otherwise the overflow in its direction. */
  function InRange(v: int): Result<int32, IntErrorKind> {
    if v < MIN then Err(NegOverflow) else if v > MAX then Err(PosOverflow) else Ok(v)
  }

  /**
   * Accumulating a run of digits from zero gives their value, negated for a
   * negative number, or the overflow on the side the value leaves the range.
   */
  lemma {:induction false} AccumulateDigits(ds: string, negative: bool)
    requires forall i :: 0 <= i < |ds| ==> IsDigit(ds[i])
    ensures Accumulate(ds, 0, negative) == InRange(if negative then -DigitsValue(ds) else DigitsValue(ds))
    decreases |ds|
  {
    if ds != [] {
      var init, c := ds[..|ds| - 1], ds[|ds| - 1];
      assert ds == init + [c];
      AccumulateDigits(init, negative);
      AccumulateSnoc(init, c, 0, negative);
    }
  }

  /**
   * `parse::<i32>` on any string: an optionally signed run of digits parses
   * to its value when that fits in an `i32` and overflows on the side it
   * leaves the range otherwise; anything else is an error.
   */
  lemma ParseDecimal(s: string)
    ensures !IsDecimal(s) ==> ParseI32(s).Err?
    ensures IsDecimal(s) ==> ParseI32(s) == InRange(SignedDecimalValue(s))
  {
    if ParseI32(s).Ok? {
      ParseOnlyDecimal(s);
    }
    if IsDecimal(s) {
      if s[0] == '+' || s[0] == '-' {
        assert forall i :: 0 <= i < |s[1..]| ==> s[1..][i] == s[i + 1];
        AccumulateDigits(s[1..], s[0] == '-');
      } else {
        AccumulateDigits(s, false);
      }
    }
  }

  /** Numerals `i32::to_string` never writes: a plus sign, leading zeros, a negative zero. */
  lemma ParseNonCanonical()
    ensures ParseI32("+512") == Ok(512)
    ensures ParseI32("0512") == Ok(512)
    ensures ParseI32("-0") == Ok(0)
  {
  }

  /** One past the top of the range overflows. */
  lemma ParsePastMax()
    ensures ParseI32("2147483648") == Err(PosOverflow)
  {
  }

  /** The unsigned 32-bit value of four octets, most significant first. */
  function BigEndian(b: seq<uint8>): (u: int)
    requires |b| == 4
    ensures 0 <= u < 0x1_0000_0000
  {
    b[0] as int * 0x100_0000 + b[1] as int * 0x1_0000 + b[2] as int * 0x100 + b[3] as int
  }

  /** `i32::from_be_bytes`: four octets, most significant first, in two's complement. */
  function FromBeBytes(b: seq<uint8>): int32
    requires |b| == 4
  {
    var u := BigEndian(b);
    if u < 0x8000_0000 then u else u - 0x1_0000_0000
  }

  /** `i32::to_be_bytes`. */
  function ToBeBytes(n: int32): (b: seq<uint8>)
    ensures |b| == 4
  {
    var u := if n < 0 then n + 0x1_0000_0000 else n;
    [u / 0x100_0000, u / 0x1_0000 % 0x100, u / 0x100 % 0x100, u % 0x100]
  }

  lemma DivMod256(q: int, r: int)
    requires 0 <= r < 0x100
    ensures (q * 0x100 + r) / 0x100 == q && (q * 0x100 + r) % 0x100 == r
  {
  }

  /** Reading back the octets `to_be_bytes` writes gives the number. */
  lemma FromToBeBytes(n: int32)
    ensures FromBeBytes(ToBeBytes(n)) == n
  {
    var u := if n < 0 then n + 0x1_0000_0000 else n;
    assert u / 0x100 == u / 0x1_0000 * 0x100 + u / 0x100 % 0x100;
    assert u / 0x1_0000 == u / 0x100_0000 * 0x100 + u / 0x1_0000 % 0x100;
    assert BigEndian(ToBeBytes(n)) == u;
  }

  /** Writing out a decoded number gives the octets back. */
  lemma ToFromBeBytes(b: seq<uint8>)
    requires |b| == 4
    ensures ToBeBytes(FromBeBytes(b)) == b
  {
    var u := BigEndian(b);
    var hi := b[0] as int * 0x1_0000 + b[1] as int * 0x100 + b[2] as int;
    var mid := b[0] as int * 0x100 + b[1] as int;
    assert u == hi * 0x100 + b[3] as int;
    DivMod256(hi, b[3]);
    assert hi == mid * 0x100 + b[2];
    DivMod256(mid, b[2]);
    DivMod256(b[0], b[1]);
    assert u / 0x1_0000 == u / 0x100 / 0x100;
    assert u / 0x100_0000 == u / 0x1_0000 / 0x100;
  }

  /** The two's-complement bit pattern of an `i32`, read as an unsigned number. */
  function Unsigned(n: int32): (u: nat)
    ensures u < 0x1_0000_0000
  {
    if n < 0 then n + 0x1_0000_0000 else n
  }

  /** Bit `i` of `x`, counting from the least significant. */
  predicate Bit(x: nat, i: nat)
    decreases i
  {
    if i == 0 then x % 2 == 1 else Bit(x / 2, i - 1)
  }

  /** The `k` low bits of `x & y`. */
  function AndBits(x: nat, y: nat, k: nat): (r: nat)
    ensures r <= x && r <= y
    decreases k
  {
    if k == 0 then 0 else AndBits(x / 2, y / 2, k - 1) * 2 + (x % 2) * (y % 2)
  }

  /** `a & b` on `i32`. */
  function And(a: int32, b: int32): int32 {
    var u := AndBits(Unsigned(a), Unsigned(b), 32);
    if u < 0x8000_0000 then u else u - 0x1_0000_0000
  }

  /** No bit below `k` is set in both `x` and `y`. */
  predicate Disjoint(x: nat, y: nat, k: nat) {
    forall i :: 0 <= i < k ==> !(Bit(x, i) && Bit(y, i))
  }

  lemma DisjointStep(x: nat, y: nat, k: nat)
    requires k > 0
    ensures Disjoint(x, y, k) <==> !(x % 2 == 1 && y % 2 == 1) && Disjoint(x / 2, y / 2, k - 1)
  {
    if Disjoint(x, y, k) {
      assert !(Bit(x, 0) && Bit(y, 0));
      forall i | 0 <= i < k - 1
        ensures !(Bit(x / 2, i) && Bit(y / 2, i))
      {
        assert !(Bit(x, i + 1) && Bit(y, i + 1));
      }
    }
    if !(x % 2 == 1 && y % 2 == 1) && Disjoint(x / 2, y / 2, k - 1) {
      forall i | 0 <= i < k
        ensures !(Bit(x, i) && Bit(y, i))
      {
        if i > 0 {
          assert !(Bit(x / 2, i - 1) && Bit(y / 2, i - 1));
        }
      }
    }
  }

  lemma {:induction false} AndBitsZero(x: nat, y: nat, k: nat)
    ensures AndBits(x, y, k) == 0 <==> Disjoint(x, y, k)
    decreases k
  {
    if k > 0 {
      AndBitsZero(x / 2, y / 2, k - 1);
      DisjointStep(x, y, k);
      assert (x % 2) * (y % 2) == 0 <==> !(x % 2 == 1 && y % 2 == 1);
    }
  }

  /** `a & b` is zero exactly when no bit is set in both. */
  lemma AndZero(a: int32, b: int32)
    ensures And(a, b) == 0 <==> Disjoint(Unsigned(a), Unsigned(b), 32)
  {
    AndBitsZero(Unsigned(a), Unsigned(b), 32);
  }
}
