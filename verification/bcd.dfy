/** Packed binary-coded decimal, as the real-time-clock registers hold it: the
    tens digit in the high nibble, the units digit in the low nibble.

  The C programs carry two encoders, one taking an `int8_t` and one an
  `int16_t`; both first reinterpret the argument as unsigned of the same width
  and then reduce it modulo 100.  The Python programs carry one encoder that
  reduces with Python's `%`, which never yields a negative remainder.
 */
module Bcd {
  import opened Bus

  /** A C `int8_t`. */
  type Int8 = x: int | -128 <= x < 128

  /** A C `int16_t`. */
  type Int16 = x: int | -32768 <= x < 32768

  /** C's conversion of an `int` to `int8_t`: the compilers the examples target
      keep the low 8 bits, two's complement. */
  function ToInt8(x: int): (r: Int8)
    ensures (r - x) % 256 == 0
    ensures -128 <= x < 128 ==> r == x
  {
    var u := x % 256;
    if u < 128 then u else u - 256
  }

  /** C's conversion of an `int` to `int16_t`, keeping the low 16 bits. */
  function ToInt16(x: int): (r: Int16)
    ensures (r - x) % 65536 == 0
    ensures -32768 <= x < 32768 ==> r == x
  {
    var u := x % 65536;
    if u < 32768 then u else u - 65536
  }

  /** The nibbles of a byte are both decimal digits. */
  predicate IsBcd(b: Byte)
  {
    b / 16 <= 9 && b % 16 <= 9
  }

  /** The value a packed-BCD byte stands for: `(b >> 4) * 10 + (b & 0xF)`. */
  function Decode(b: Byte): nat
  {
    (b / 16) * 10 + b % 16
  }

  /** Places the two decimal digits of v into the two nibbles of a byte. */
  function Pack(v: nat): (b: Byte)
    requires v < 100
    ensures IsBcd(b)
    ensures b / 16 == v / 10 && b % 16 == v % 10
    ensures Decode(b) == v
  {
    (v / 10) * 16 + v % 10
  }

  /** `int8_t_to_bcd`: reinterprets the argument as `uint8_t`, then reduces modulo 100. */
  function Int8ToBcd(val: Int8): (b: Byte)
    ensures IsBcd(b)
    ensures Decode(b) == (val % 256) % 100
  {
    Pack((val % 256) % 100)
  }

  /** `int16_t_to_bcd`: reinterprets the argument as `uint16_t`, then reduces modulo 100. */
  function Int16ToBcd(val: Int16): (b: Byte)
    ensures IsBcd(b)
    ensures Decode(b) == (val % 65536) % 100
  {
    Pack((val % 65536) % 100)
  }

  /** Python's `to_bcd`: `val %= 100`, then the two digits into the two nibbles. */
  function ToBcd(val: int): (b: Byte)
    ensures IsBcd(b)
    ensures Decode(b) == val % 100
  {
    Pack(val % 100)
  }

  /** Decoding undoes every encoder on the values a register holds. */
  lemma RoundTrip(v: int)
    requires 0 <= v < 100
    ensures Decode(ToBcd(v)) == v
    ensures Decode(Int8ToBcd(v)) == v
    ensures Decode(Int16ToBcd(v)) == v
  {
    assert v % 100 == v;
    assert v % 256 == v;
    assert v % 65536 == v;
  }

  /** Encoding undoes decoding on bytes whose nibbles are digits, so the
      encoders are a bijection between 0..99 and the packed-BCD bytes. */
  lemma DecodeRoundTrip(b: Byte)
    requires IsBcd(b)
    ensures Decode(b) < 100
    ensures ToBcd(Decode(b)) == b
  {
    var h, l := b / 16, b % 16;
    assert b == h * 16 + l;
    var v := Decode(b);
    assert v == h * 10 + l;
    assert v / 10 == h && v % 10 == l;
    assert v % 100 == v;
  }

  /** Two packed-BCD bytes that stand for the same value are the same byte. */
  lemma SameValueSameByte(a: Byte, b: Byte)
    requires IsBcd(a) && IsBcd(b) && Decode(a) == Decode(b)
    ensures a == b
  {
    DecodeRoundTrip(a);
    DecodeRoundTrip(b);
  }

  /** The encoding of a value is the packed-BCD byte that stands for its last two digits. */
  lemma EncodesAs(x: int, b: Byte)
    requires IsBcd(b) && Decode(b) == x % 100
    ensures ToBcd(x) == b
  {
    SameValueSameByte(ToBcd(x), b);
  }

  /** Two values in 0..99 with the same encoding are equal. */
  lemma Injective(a: int, b: int)
    requires 0 <= a < 100 && 0 <= b < 100
    requires ToBcd(a) == ToBcd(b)
    ensures a == b
  {
    RoundTrip(a);
    RoundTrip(b);
  }

  /** Values 100 apart encode alike: the encoders wrap rather than fail. */
  lemma Wrap(v: int)
    ensures ToBcd(v) == ToBcd(v % 100) == ToBcd(v + 100)
  {
    var r := v % 100;
    assert 0 <= r < 100;
    assert r % 100 == r;
    assert (v + 100) % 100 == r;
  }

  /** On 0..127 both C encoders and the Python encoder agree. */
  lemma EncodersAgree(v: int)
    requires 0 <= v < 128
    ensures Int8ToBcd(v) == ToBcd(v)
    ensures Int16ToBcd(v) == ToBcd(v)
  {
    assert v % 256 == v;
    assert v % 65536 == v;
  }

  /** On a negative argument the C encoders reinterpret the two's-complement bits
      while Python reduces toward 0..99, so -1 encodes as 0x55 in C and 0x99 in Python. */
  lemma NegativeOneDiffers()
    ensures Int8ToBcd(-1) == 0x55
    ensures Int16ToBcd(-1) == 0x35
    ensures ToBcd(-1) == 0x99
  {
    assert -1 % 256 == 255 && 255 % 100 == 55;
    assert Pack(55) == 0x55;
    assert -1 % 65536 == 65535 && 65535 % 100 == 35;
    assert Pack(35) == 0x35;
    assert -1 % 100 == 99;
    assert Pack(99) == 0x99;
  }

  /** The C call `int8_t_to_bcd(x)` on an `int` argument: the argument is first
      narrowed to `int8_t`, so only its low 8 bits matter. */
  function FieldBcd(x: int): (b: Byte)
    ensures IsBcd(b)
    ensures Decode(b) == (x % 256) % 100
    ensures 0 <= x < 100 ==> Decode(b) == x
  {
    var u := x % 256;
    var n := ToInt8(x);
    assert n == u || n == u - 256;
    assert n % 256 == u;
    assert 0 <= x < 100 ==> u == x && u % 100 == x;
    Int8ToBcd(n)
  }

  /** The C call `int16_t_to_bcd(x)` on an `int` argument: only its low 16 bits matter. */
  function YearBcd(x: int): (b: Byte)
    ensures IsBcd(b)
    ensures Decode(b) == (x % 65536) % 100
    ensures 0 <= x < 65536 ==> Decode(b) == x % 100
  {
    var u := x % 65536;
    var n := ToInt16(x);
    assert n == u || n == u - 65536;
    assert n % 65536 == u;
    assert 0 <= x < 65536 ==> u == x;
    Int16ToBcd(n)
  }

  /** A field the C programs pass through `int8_t_to_bcd` encodes as Python's
      encoder does, on the values a time field takes. */
  lemma FieldMatches(x: int)
    requires 0 <= x < 100
    ensures FieldBcd(x) == ToBcd(x)
  {
    assert x % 100 == x;
    SameValueSameByte(FieldBcd(x), ToBcd(x));
  }

  /** `tm_year` through `int16_t_to_bcd` encodes as the calendar year through
      Python's encoder, for years from 1900 on. */
  lemma YearMatches(y: int)
    requires 0 <= y < 65536
    ensures YearBcd(y) == ToBcd(y + 1900)
  {
    assert (y + 1900) % 100 == y % 100;
    SameValueSameByte(YearBcd(y), ToBcd(y + 1900));
  }

  /** Before 1900 `tm_year` is negative and the C year register no longer
      holds the last two digits of the year: 1850 is written as 0x86, where
      Python writes 0x50. */
  lemma PreCenturyYear()
    ensures YearBcd(1850 - 1900) == 0x86
    ensures ToBcd(1850) == 0x50
  {
    assert -50 % 65536 == 65486 && 65486 % 100 == 86;
    assert ToInt16(-50) == -50;
    assert Pack(86) == 0x86;
    assert 1850 % 100 == 50;
    assert Pack(50) == 0x50;
  }
}
