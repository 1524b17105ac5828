/** The parts of Rust's primitive types and standard library that the chunk
    layer leans on: the `u8` and `i32` ranges, the `as usize` cast of an `i32`
    on a 64-bit target, the bound on the length of a slice, `str::as_bytes`
    (UTF-8 encoding of a string) and the decimal `Display` of an `i32`. */
module Rust {

  type u8 = x: int | 0 <= x < 0x100

  type i32 = x: int | -0x8000_0000 <= x < 0x8000_0000

  /** Number of distinct `usize` values on a 64-bit target. */
  const USIZE_MODULUS: int := 0x1_0000_0000_0000_0000

  const ISIZE_MAX: int := 0x7FFF_FFFF_FFFF_FFFF

  /** A borrowed `&[u8]`. Rust never lets a slice hold more than `isize::MAX` bytes. */
  type Slice = s: seq<u8> | |s| <= ISIZE_MAX

  /** `x as usize` for an `i32` on a 64-bit target: the value is sign-extended,
      that is taken modulo 2^64, so a negative `x` becomes a huge unsigned
      number that no slice length can reach. */
  function AsUsize(x: i32): (r: int)
    ensures 0 <= r < USIZE_MODULUS
    ensures 0 <= x ==> r == x
    ensures x < 0 ==> r == x + USIZE_MODULUS && r > ISIZE_MAX
  {
    x % USIZE_MODULUS
  }

  // ---------------------------------------------------------------------------
  // `str::as_bytes`: the UTF-8 encoding of a string of Unicode scalar values
  // ---------------------------------------------------------------------------

  predicate IsAscii(s: string) {
    forall i | 0 <= i < |s| :: s[i] as int < 0x80
  }

  /** The bytes of an ASCII string: each character is its own byte. */
  function AsciiBytes(s: string): (b: seq<u8>)
    requires IsAscii(s)
  {
    seq(|s|, i requires 0 <= i < |s| => s[i] as int)
  }

  /** UTF-8 encoding of one scalar value: one byte below 0x80, otherwise a lead
      byte of at least 0xC0 followed by continuation bytes. */
  function EncodeChar(c: char): (r: seq<u8>)
    ensures 1 <= |r| <= 4
    ensures |r| == 1 <==> c as int < 0x80
    ensures |r| == 1 ==> r[0] == c as int
    ensures |r| > 1 ==> 0xC0 <= r[0]
  {
    var n := c as int;
    if n < 0x80 then [n]
    else if n < 0x800 then [0xC0 + n / 0x40, 0x80 + n % 0x40]
    else if n < 0x1_0000 then [0xE0 + n / 0x1000, 0x80 + (n / 0x40) % 0x40, 0x80 + n % 0x40]
    else [0xF0 + n / 0x4_0000, 0x80 + (n / 0x1000) % 0x40, 0x80 + (n / 0x40) % 0x40, 0x80 + n % 0x40]
  }

  /** `s.as_bytes()`: the concatenated UTF-8 encodings of the characters of `s`. */
  function Encode(s: string): (b: seq<u8>)
    ensures |s| <= |b| <= 4 * |s|
  {
    if s == [] then [] else EncodeChar(s[0]) + Encode(s[1..])
  }

  /** An ASCII string is encoded as itself, byte for byte. */
  lemma {:induction false} EncodeAscii(s: string)
    requires IsAscii(s)
    ensures Encode(s) == AsciiBytes(s)
  {
    if s != [] {
      EncodeAscii(s[1..]);
      assert Encode(s) == [s[0] as int] + AsciiBytes(s[1..]);
    }
  }

  /** Encoding distributes over concatenation. */
  lemma {:induction false} EncodeAppend(a: string, b: string)
    ensures Encode(a + b) == Encode(a) + Encode(b)
  {
    if a != [] {
      assert (a + b)[0] == a[0];
      assert (a + b)[1..] == a[1..] + b;
      EncodeAppend(a[1..], b);
      calc {
        Encode(a + b);
        EncodeChar(a[0]) + Encode(a[1..] + b);
        EncodeChar(a[0]) + (Encode(a[1..]) + Encode(b));
        (EncodeChar(a[0]) + Encode(a[1..])) + Encode(b);
        Encode(a) + Encode(b);
      }
    } else {
      assert a + b == b;
    }
  }

  /** If the first `n` bytes of an encoding are all ASCII, then they come from
      the first `n` characters, each of which is ASCII and encoded as itself. */
  lemma {:induction false} EncodeAsciiPrefix(s: string, n: nat)
    requires n <= |Encode(s)|
    requires forall i | 0 <= i < n :: Encode(s)[i] < 0x80
    ensures n <= |s|
    ensures forall i | 0 <= i < n :: s[i] as int < 0x80 && Encode(s)[i] == s[i] as int
  {
    if n > 0 {
      var head := EncodeChar(s[0]);
      assert Encode(s) == head + Encode(s[1..]);
      assert Encode(s)[0] == head[0];
      assert |head| == 1;
      forall i | 0 <= i < n - 1
        ensures Encode(s[1..])[i] < 0x80
      {
        assert Encode(s)[i + 1] == Encode(s[1..])[i];
      }
      EncodeAsciiPrefix(s[1..], n - 1);
      forall i | 0 <= i < n
        ensures s[i] as int < 0x80 && Encode(s)[i] == s[i] as int
      {
        if i > 0 {
          assert Encode(s)[i] == Encode(s[1..])[i - 1];
          assert s[i] == s[1..][i - 1];
        }
      }
    }
  }

  // ---------------------------------------------------------------------------
  // `Display` for `i32`: an optional minus sign and the decimal digits
  // ---------------------------------------------------------------------------

  function DigitChar(d: int): (c: char)
    requires 0 <= d < 10
  {
    ('0' as int + d) as char
  }

  function NatToDecimal(n: nat): (r: string)
  {
    if n < 10 then [DigitChar(n)] else NatToDecimal(n / 10) + [DigitChar(n % 10)]
  }

  /** The text `format!("{}", x)` produces for an `i32`: at most ten digits
      after an optional minus sign. */
  function I32ToDecimal(x: i32): (r: string)
    ensures 0 < |r| <= 11
  {
    if x < 0 then
      NatToDecimalLength(-(x as int), 10);
      "-" + NatToDecimal(-(x as int))
    else
      NatToDecimalLength(x, 10);
      NatToDecimal(x)
  }

  /** Reads a string of decimal digits back as a number. */
  function DigitsValue(s: string): (n: int)
  {
    if s == [] then 0 else DigitsValue(s[..|s| - 1]) * 10 + (s[|s| - 1] as int - '0' as int)
  }

  /** Reads an optionally negative decimal numeral back as a number. */
  function ParseDecimal(s: string): (n: int)
  {
    if |s| > 0 && s[0] == '-' then -DigitsValue(s[1..]) else DigitsValue(s)
  }

  function Pow10(k: nat): (p: nat)
  {
    if k == 0 then 1 else 10 * Pow10(k - 1)
  }

  /** A number below 10^k takes at most k digits. */
  lemma {:induction false} NatToDecimalLength(n: nat, k: nat)
    requires 0 < k && n < Pow10(k)
    ensures |NatToDecimal(n)| <= k
  {
    if n >= 10 {
      NatToDecimalLength(n / 10, k - 1);
    }
  }

  lemma {:induction false} NatToDecimalDigits(n: nat)
    ensures |NatToDecimal(n)| > 0
    ensures forall i | 0 <= i < |NatToDecimal(n)| :: '0' <= NatToDecimal(n)[i] <= '9'
    ensures DigitsValue(NatToDecimal(n)) == n
    ensures NatToDecimal(n)[0] == '0' ==> n == 0
  {
    if n >= 10 {
      NatToDecimalDigits(n / 10);
      var s := NatToDecimal(n);
      assert s[..|s| - 1] == NatToDecimal(n / 10);
      assert s[0] == NatToDecimal(n / 10)[0];
    }
  }

  /** The decimal text of an `i32` is canonical: a minus sign exactly for a
      negative number, then digits with no leading zero (only zero itself is
      written "0"), and reading it back gives the number. */
  lemma I32ToDecimalRoundTrip(x: i32)
    ensures |I32ToDecimal(x)| > 0
    ensures '0' <= I32ToDecimal(x)[0] <= '9' || I32ToDecimal(x)[0] == '-'
    ensures I32ToDecimal(x)[0] == '-' <==> x < 0
    ensures I32ToDecimal(x)[0] == '0' ==> I32ToDecimal(x) == "0"
    ensures forall i | 1 <= i < |I32ToDecimal(x)| :: '0' <= I32ToDecimal(x)[i] <= '9'
    ensures x < 0 ==> I32ToDecimal(x)[1] != '0'
    ensures ParseDecimal(I32ToDecimal(x)) == x
  {
    if x < 0 {
      NatToDecimalDigits(-(x as int));
      assert I32ToDecimal(x)[1..] == NatToDecimal(-(x as int));
      assert I32ToDecimal(x)[1] == NatToDecimal(-(x as int))[0];
    } else {
      NatToDecimalDigits(x);
    }
  }
}
