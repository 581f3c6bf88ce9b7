/** Numbers of 8, 16 and 32 bits and the bytes they are made of. */
module Numbers {
  import opened Bytes

  /** Words of 16 and 32 bits. */
  type W16 = n: nat | n < 0x1_0000
  type U32 = n: nat | n < 0x1_0000_0000

  function Digit(n: nat): Byte
    requires n < 0x10
  {
    n as Byte
  }

  /** A byte by its two hexadecimal digits. */
  function ByteOf(n: nat): Byte
    requires n < 0x100
  {
    (Digit(n / 0x10) << 4) | Digit(n % 0x10)
  }

  function Hi8(v: W16): Byte { ByteOf(v / 0x100) }

  function Lo8(v: W16): Byte { ByteOf(v % 0x100) }

  function DigitValue(b: Byte): (n: nat)
    ensures n < 0x10
  {
    (b & 0x0f) as nat
  }

  function Value(b: Byte): (n: nat)
    ensures n < 0x100
  {
    DigitValue(b >> 4) * 0x10 + DigitValue(b)
  }

  function Mk16(hi: Byte, lo: Byte): W16 { Value(lo) + Value(hi) * 0x100 }

  lemma DigitInjective(a: nat, b: nat)
    requires a < 0x10 && b < 0x10 && Digit(a) == Digit(b)
    ensures a == b
  {
  }

  lemma DigitBits(a: nat)
    requires a < 0x10
    ensures Digit(a) & 0xf0 == 0
  {
  }

  lemma DigitsInjective(a: Byte, b: Byte, c: Byte, d: Byte)
    requires a & 0xf0 == 0 && b & 0xf0 == 0 && c & 0xf0 == 0 && d & 0xf0 == 0 && (a << 4) | b == (c << 4) | d
    ensures a == c && b == d
  {
  }

  lemma ByteInjective(a: nat, b: nat)
    requires a < 0x100 && b < 0x100 && ByteOf(a) == ByteOf(b)
    ensures a == b
  {
    DigitBits(a / 0x10); DigitBits(a % 0x10); DigitBits(b / 0x10); DigitBits(b % 0x10);
    DigitsInjective(Digit(a / 0x10), Digit(a % 0x10), Digit(b / 0x10), Digit(b % 0x10));
    DigitInjective(a / 0x10, b / 0x10);
    DigitInjective(a % 0x10, b % 0x10);
  }

  lemma DigitValueOf(n: nat)
    requires n < 0x10
    ensures DigitValue(Digit(n)) == n
  {
  }

  lemma DigitsOf(a: Byte, b: Byte)
    requires a & 0xf0 == 0 && b & 0xf0 == 0
    ensures ((a << 4) | b) >> 4 == a && ((a << 4) | b) & 0x0f == b && b & 0x0f == b
  {
  }

  lemma ValueOf(n: nat)
    requires n < 0x100
    ensures Value(ByteOf(n)) == n
  {
    DigitBits(n / 0x10); DigitBits(n % 0x10);
    DigitsOf(Digit(n / 0x10), Digit(n % 0x10));
    DigitValueOf(n / 0x10); DigitValueOf(n % 0x10);
  }

  lemma DigitValueInjective(a: Byte, b: Byte)
    requires DigitValue(a) == DigitValue(b)
    ensures a & 0x0f == b & 0x0f
  {
  }

  lemma SameDigits(a: Byte, b: Byte)
    requires (a >> 4) & 0x0f == (b >> 4) & 0x0f && a & 0x0f == b & 0x0f
    ensures a == b
  {
  }

  lemma ValueInjective(a: Byte, b: Byte)
    requires Value(a) == Value(b)
    ensures a == b
  {
    DigitValueInjective(a, b);
    DigitValueInjective(a >> 4, b >> 4);
    SameDigits(a, b);
  }

  lemma Mk16Of(v: W16)
    ensures Mk16(Hi8(v), Lo8(v)) == v
  {
    ValueOf(v / 0x100);
    ValueOf(v % 0x100);
  }

  lemma Mk16Injective(a: Byte, b: Byte, c: Byte, d: Byte)
    requires Mk16(a, b) == Mk16(c, d)
    ensures a == c && b == d
  {
    ValueInjective(a, c);
    ValueInjective(b, d);
  }
}
