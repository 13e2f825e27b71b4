/**
 * Java integer semantics needed by the client: 32-bit two's-complement `int`,
 * the 8-bit `byte` as an unsigned octet, `ByteBuffer.putInt`'s big-endian
 * layout and `Integer.toString`'s decimal text.
 */
module JavaNumbers {

  const TWO_31: int := 0x8000_0000
  const TWO_32: int := 0x1_0000_0000
  const INT32_MIN: int := -0x8000_0000
  const INT32_MAX: int := 0x7FFF_FFFF

  /** Java `int`. */
  newtype int32 = x: int | -0x8000_0000 <= x < 0x8000_0000

  /** Java `long`. */
  newtype int64 = x: int | -0x8000_0000_0000_0000 <= x < 0x8000_0000_0000_0000

  /** One octet of a Java `byte[]`, read as unsigned. */
  newtype byte = x: int | 0 <= x < 256

  /** Java `int` arithmetic: reduce an exact result modulo 2^32 into the signed range. */
  function Wrap32(x: int): (r: int32)
    ensures (r as int - x) % TWO_32 == 0
    ensures INT32_MIN <= x <= INT32_MAX ==> r as int == x
  {
    var u := x % TWO_32;
    if u <= INT32_MAX then u as int32 else (u - TWO_32) as int32
  }

  /** `x + 1` on a Java `int` (the effect of `x++`). */
  function Inc32(x: int32): (r: int32)
    ensures x as int < INT32_MAX ==> r as int == x as int + 1
    ensures x as int == INT32_MAX ==> r as int == INT32_MIN
  {
    Wrap32(x as int + 1)
  }

  /** The 32 bits of a Java `int`, read as an unsigned number. */
  function Bits(x: int32): (u: int)
    ensures 0 <= u < TWO_32
    ensures x >= 0 ==> u == x as int
    ensures x < 0 ==> u == x as int + TWO_32
  {
    x as int % TWO_32
  }

  /** The four bytes `ByteBuffer.putInt` writes for the bit pattern `u`, most significant first. */
  function BigEndian32(u: int): (r: seq<byte>)
    requires 0 <= u < TWO_32
    ensures |r| == 4
  {
    [(u / 0x100_0000) as byte, (u / 0x1_0000 % 0x100) as byte,
     (u / 0x100 % 0x100) as byte, (u % 0x100) as byte]
  }

  /** The unsigned value of four big-endian bytes (`ByteBuffer.getInt`, unsigned). */
  function ReadBigEndian32(b: seq<byte>): (u: int)
    requires |b| == 4
    ensures 0 <= u < TWO_32
  {
    b[0] as int * 0x100_0000 + b[1] as int * 0x1_0000 + b[2] as int * 0x100 + b[3] as int
  }

  /** Reading back the bytes of a written value recovers it. */
  lemma ReadBigEndian32OfWrite(u: int)
    requires 0 <= u < TWO_32
    ensures ReadBigEndian32(BigEndian32(u)) == u
  {
    var b := BigEndian32(u);
    assert b[0] as int * 0x100_0000 + (u % 0x100_0000) == u;
    assert b[1] as int * 0x1_0000 + (u % 0x1_0000) == u % 0x100_0000;
    assert b[2] as int * 0x100 + (u % 0x100) == u % 0x1_0000;
  }

  /** Writing the value read from four bytes gives back the same bytes. */
  lemma WriteBigEndian32OfRead(b: seq<byte>)
    requires |b| == 4
    ensures BigEndian32(ReadBigEndian32(b)) == b
  {
    var u := ReadBigEndian32(b);
    var r2 := b[2] as int * 0x100 + b[3] as int;
    var r1 := b[1] as int * 0x1_0000 + r2;
    DivModUnique(u, 0x100_0000, b[0] as int, r1);
    DivModUnique(u, 0x1_0000, b[0] as int * 0x100 + b[1] as int, r2);
    DivModUnique(b[0] as int * 0x100 + b[1] as int, 0x100, b[0] as int, b[1] as int);
    DivModUnique(u, 0x100, b[0] as int * 0x1_0000 + b[1] as int * 0x100 + b[2] as int, b[3] as int);
    DivModUnique(b[0] as int * 0x1_0000 + b[1] as int * 0x100 + b[2] as int, 0x100,
                 b[0] as int * 0x100 + b[1] as int, b[2] as int);
  }

  /** Euclidean division is determined by quotient and remainder. */
  lemma DivModUnique(u: int, d: int, q: int, r: int)
    requires 0 < d && 0 <= r < d && u == q * d + r
    ensures u / d == q && u % d == r
  {
    var q', r' := u / d, u % d;
    assert q' * d + r' == u;
    var k := q - q';
    assert k * d == q * d - q' * d;
    assert k * d == r' - r;
  }

  /** The character of one decimal digit. */
  function DigitChar(d: int): (c: char)
    requires 0 <= d < 10
    ensures '0' <= c <= '9'
  {
    ('0' as int + d) as char
  }

  predicate IsDigits(s: string) {
    forall i :: 0 <= i < |s| ==> '0' <= s[i] <= '9'
  }

  /** Decimal digits of a natural number, without leading zeros. */
  function NatDigits(n: nat): (s: string)
    ensures |s| >= 1 && IsDigits(s)
    ensures s[0] == '0' ==> n == 0
    decreases n
  {
    if n < 10 then [DigitChar(n)] else NatDigits(n / 10) + [DigitChar(n % 10)]
  }

  /** The number a string of decimal digits denotes. */
  function DigitsValue(s: string): nat
    requires IsDigits(s)
  {
    if s == [] then 0
    else
      assert IsDigits(s[..|s| - 1]);
      assert '0' <= s[|s| - 1];
      DigitsValue(s[..|s| - 1]) * 10 + (s[|s| - 1] as int - '0' as int)
  }

  lemma {:induction false} DigitsValueOfNatDigits(n: nat)
    ensures DigitsValue(NatDigits(n)) == n
    decreases n
  {
    if n >= 10 {
      var s := NatDigits(n);
      assert s[..|s| - 1] == NatDigits(n / 10);
      DigitsValueOfNatDigits(n / 10);
    }
  }

  /** `Integer.toString(x)` / string concatenation of an `int`: optional minus sign, then digits. */
  function DecimalString(x: int): (s: string)
    ensures |s| >= 1
    ensures forall c <- s :: c == '-' || '0' <= c <= '9'
    ensures (s[0] == '-') <==> x < 0
  {
    if x < 0 then "-" + NatDigits(-x) else NatDigits(x)
  }

  /** Reads back the text `DecimalString` produces. */
  function DecimalValue(s: string): int
    requires |s| >= 1
    requires forall c <- s :: c == '-' || '0' <= c <= '9'
  {
    if s[0] == '-' && IsDigits(s[1..]) then -(DigitsValue(s[1..]) as int)
    else if IsDigits(s) then DigitsValue(s)
    else 0
  }

  /** The decimal text of an integer determines it. */
  lemma DecimalRoundTrip(x: int)
    ensures DecimalValue(DecimalString(x)) == x
  {
    if x < 0 {
      assert DecimalString(x)[1..] == NatDigits(-x);
      DigitsValueOfNatDigits(-x);
    } else {
      DigitsValueOfNatDigits(x);
    }
  }
}
