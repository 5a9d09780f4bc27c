/** Small shared vocabulary: optional values, bytes, Go's 64-bit `int`
    and the conversions between Go strings and byte slices. */
module Common {

  datatype Option<+T> = None | Some(value: T)

  /** One byte of a Go `[]byte`. */
  newtype byte = b: int | 0 <= b < 256

  const Int64Min: int := -0x8000_0000_0000_0000
  const Int64Max: int := 0x7fff_ffff_ffff_ffff
  const TwoTo64: int := 0x1_0000_0000_0000_0000

  /** Go's `int` is 64 bits wide on the platforms the service runs on:
      arithmetic wraps around modulo 2^64 into the signed range. */
  function Wrap64(x: int): (r: int)
    ensures Int64Min <= r <= Int64Max
    ensures (r - x) % TwoTo64 == 0
    ensures Int64Min <= x <= Int64Max ==> r == x
  {
    (x - Int64Min) % TwoTo64 + Int64Min
  }

  predicate IsAscii(s: string) {
    forall i :: 0 <= i < |s| ==> s[i] as int < 128
  }

  /** `[]byte(s)` for a string made of ASCII characters. */
  function Bytes(s: string): (b: seq<byte>)
    requires IsAscii(s)
    ensures |b| == |s|
    ensures forall i :: 0 <= i < |s| ==> b[i] as int == s[i] as int
  {
    if s == [] then [] else [s[0] as int as byte] + Bytes(s[1..])
  }

  /** `string(b)`: every byte becomes the character with the same code. */
  function Text(b: seq<byte>): (s: string)
    ensures |s| == |b|
    ensures forall i :: 0 <= i < |b| ==> s[i] as int == b[i] as int
  {
    if b == [] then [] else [b[0] as int as char] + Text(b[1..])
  }

  lemma {:induction false} TextOfBytes(s: string)
    requires IsAscii(s)
    ensures Text(Bytes(s)) == s
  {
    if s != [] {
      TextOfBytes(s[1..]);
    }
  }

  function Min(a: int, b: int): (m: int)
    ensures m <= a && m <= b && (m == a || m == b)
  {
    if a <= b then a else b
  }

  /** True when `needle` occurs in `s` (Go's `strings.Contains`, Ruby's `include?`). */
  predicate Contains<T(==)>(s: seq<T>, needle: seq<T>)
    decreases |s|
  {
    needle <= s || (s != [] && Contains(s[1..], needle))
  }

  function DigitChar(d: nat): (c: char)
    requires d < 10
    ensures '0' <= c <= '9' && c as int - '0' as int == d
  {
    ('0' as int + d) as char
  }

  /** A natural number in decimal (Go's `strconv.FormatInt(n, 10)` and Ruby's
      `Integer#to_s` for n >= 0): the digits, most significant first. */
  function Decimal(n: nat): (s: string)
    ensures |s| >= 1 && forall i :: 0 <= i < |s| ==> '0' <= s[i] <= '9'
  {
    if n < 10 then [DigitChar(n)] else Decimal(n / 10) + [DigitChar(n % 10)]
  }

  /** The number a string of decimal digits denotes. */
  function DecimalValue(s: string): nat
    requires forall i :: 0 <= i < |s| ==> '0' <= s[i] <= '9'
  {
    if s == [] then 0 else DecimalValue(s[..|s| - 1]) * 10 + (s[|s| - 1] as int - '0' as int)
  }

  /** The printed size reads back as the size. */
  lemma {:induction false} DecimalRoundTrip(n: nat)
    ensures DecimalValue(Decimal(n)) == n
  {
    if n >= 10 {
      DecimalRoundTrip(n / 10);
      var s := Decimal(n);
      assert s[..|s| - 1] == Decimal(n / 10);
    }
  }

  /** An integer in decimal, with a minus sign when negative. */
  function FormatInt(n: int): string {
    if n < 0 then "-" + Decimal(-n) else Decimal(n)
  }
}
