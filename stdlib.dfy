/**
 * The arithmetic helpers of the kernel's small C library: BCD conversion and
 * ceiling division.
 *
 * The kernel's `uint8` is a plain (signed) `char`, so the BCD routines take and
 * return values in -128..127 and every result is truncated back into that
 * range. C's `/` and `%` truncate toward zero and `>>` on a negative `int` is
 * arithmetic; those operators are written out below.
 */
module StdLib {
  import opened Base

  /** A value of the kernel's `uint8`, which is a signed `char`. */
  type schar = x: int | -128 <= x < 128

  /** Conversion of an `int` to `char`: keep the low 8 bits, read them signed. */
  function ToSChar(x: int): (c: schar)
    ensures (c - x) % 256 == 0
  {
    (x + 128) % 256 - 128
  }

  /** C's `/`: truncation toward zero. */
  function CDiv(a: int, b: int): int
    requires b > 0
  {
    if a >= 0 then a / b else -((-a) / b)
  }

  /** C's `%`: the remainder takes the sign of the dividend. */
  function CMod(a: int, b: int): int
    requires b > 0
  {
    a - b * CDiv(a, b)
  }

  /**
   * `bcd_to_bin` as written: `(value & 0xf) + (value >> 4) * 10` on a signed
   * `char`. On two's complement, `& 0xf` is the Euclidean remainder by 16 and
   * `>> 4` is the floor of the quotient, which is Dafny's `/` on `int`.
   */
  function BcdToBin(v: schar): (r: schar)
    ensures 0 <= v ==> 0 <= r < 128 && r == 10 * (v / 16) + v % 16
  {
    ToSChar(v % 16 + (v / 16) * 10)
  }

  /** `bin_to_bcd` as written: `(value / 10) * 0x10 + (value % 10)` on a signed `char`. */
  function BinToBcd(v: schar): (r: schar)
    ensures 0 <= v < 80 ==> r == (v / 10) * 16 + v % 10
  {
    ToSChar(CDiv(v, 10) * 16 + CMod(v, 10))
  }

  /** Decoding undoes encoding for every value the encoding keeps non-negative. */
  lemma BcdRoundTrip(v: schar)
    requires 0 <= v < 80
    ensures BcdToBin(BinToBcd(v)) == v
  {
    var q, m := v / 10, v % 10;
    assert v == 10 * q + m && 0 <= m < 10 && 0 <= q < 8;
    var b := BinToBcd(v);
    assert b == 16 * q + m;
    assert b % 16 == m && b / 16 == q;
  }

  /** From 80 on, the encoding overflows the signed byte and the round trip fails. */
  lemma BcdRoundTripFailsFrom80(v: schar)
    requires 80 <= v < 100
    ensures BcdToBin(BinToBcd(v)) != v
  {
    var b := BinToBcd(v);
    assert b == (v / 10) * 16 + v % 10 - 256;
    assert b < 0;
    assert b % 16 == v % 10 && b / 16 == v / 10 - 16;
  }

  /** A concrete instance: the BCD byte 0x99 (year 99) is read back as -61. */
  lemma BcdToBinOfNinetyNine()
    ensures BcdToBin(ToSChar(0x99)) == -61
  {
    assert ToSChar(0x99) == -103;
    assert -103 % 16 == 9 && -103 / 16 == -7;
  }

  /** A BCD byte holds two decimal digits, one per nibble. */
  predicate IsBcd(b: byte)
  {
    b % 16 <= 9 && b / 16 <= 9
  }

  /** BCD decoding over unsigned bytes, as the CMOS registers mean it. */
  function BcdToBinUnsigned(b: byte): (r: int)
    requires IsBcd(b)
    ensures 0 <= r < 100 && r % 10 == b % 16 && r / 10 == b / 16
  {
    b % 16 + (b / 16) * 10
  }

  /** BCD encoding of 0..99 into an unsigned byte. */
  function BinToBcdUnsigned(v: int): (b: byte)
    requires 0 <= v < 100
    ensures IsBcd(b) && b % 16 == v % 10 && b / 16 == v / 10
  {
    var tens := v / 10;
    var ones := v % 10;
    assert 0 <= tens < 10 && 0 <= ones < 10;
    assert (tens * 16 + ones) / 16 == tens && (tens * 16 + ones) % 16 == ones;
    tens * 16 + ones
  }

  /** Over unsigned bytes the two conversions are inverse bijections on 0..99 and BCD bytes. */
  lemma BcdUnsignedRoundTrip(v: int, b: byte)
    requires 0 <= v < 100 && IsBcd(b)
    ensures BcdToBinUnsigned(BinToBcdUnsigned(v)) == v
    ensures BinToBcdUnsigned(BcdToBinUnsigned(b)) == b
  {
  }

  /** `div_round_up` as written: `(num + size - 1) / size` in `uint32` arithmetic. */
  function DivRoundUp(num: int, size: int): (r: int)
    requires 0 <= num < U32_LIMIT && 0 < size < U32_LIMIT
    ensures 0 <= r
  {
    var x := (num + size - 1) % U32_LIMIT;
    assert 0 <= x;
    x / size
  }

  /** Without wrap-around, `div_round_up` is the ceiling of `num / size`. */
  lemma DivRoundUpIsCeiling(num: int, size: int)
    requires 0 <= num < U32_LIMIT && 0 < size < U32_LIMIT
    requires num + size - 1 < U32_LIMIT
    ensures DivRoundUp(num, size) * size >= num
    ensures (DivRoundUp(num, size) - 1) * size < num || (num == 0 && DivRoundUp(num, size) == 0)
  {
    var r := DivRoundUp(num, size);
    assert r == (num + size - 1) / size;
    assert r * size <= num + size - 1 < r * size + size;
  }
}
