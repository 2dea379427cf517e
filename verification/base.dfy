/**
  Fixed-width integers, an optional value and little-endian byte fields: the
  vocabulary the firmware's packed structures are written in.
  Integer widths are subset types of `int`; wrap-around and truncating casts
  are written out where the firmware performs them.
 */
module Base {

  datatype Option<+T> = None | Some(value: T)

  type u8 = x: int | 0 <= x < 0x100
  type i8 = x: int | -0x80 <= x < 0x80
  type u16 = x: int | 0 <= x < 0x1_0000
  type i16 = x: int | -0x8000 <= x < 0x8000
  type u32 = x: int | 0 <= x < 0x1_0000_0000
  type bytes = seq<u8>

  function Min(a: int, b: int): int { if a <= b then a else b }
  function Max(a: int, b: int): int { if a >= b then a else b }

  /** C's `&` on non-negative integers, bit by bit from the lowest. */
  function BitAnd(a: nat, b: nat): (r: nat)
    ensures r <= a && r <= b
    ensures r % 2 == 1 <==> a % 2 == 1 && b % 2 == 1
    decreases a
  {
    if a == 0 || b == 0 then 0
    else 2 * BitAnd(a / 2, b / 2) + (if a % 2 == 1 && b % 2 == 1 then 1 else 0)
  }

  /** `&` does not depend on the order of its operands, and a value masked with itself is unchanged. */
  lemma {:induction false} BitAndLaws(a: nat, b: nat)
    ensures BitAnd(a, b) == BitAnd(b, a)
    ensures BitAnd(a, a) == a
    decreases a
  {
    if a != 0 && b != 0 {
      BitAndLaws(a / 2, b / 2);
    }
    if a != 0 {
      BitAndLaws(a / 2, a / 2);
    }
  }

  /** C's integer division, which truncates toward zero. */
  function CDiv(a: int, b: int): (q: int)
    requires b != 0
    ensures a >= 0 && b > 0 ==> q == a / b
    ensures b > 0 ==> (if a >= 0 then b * q <= a < b * q + b else b * q - b < a <= b * q)
  {
    if (a >= 0) == (b > 0) then (if a >= 0 then a / b else (-a) / (-b))
    else -((if a >= 0 then a else -a) / (if b > 0 then b else -b))
  }

  /** The two bytes of a little-endian 16-bit field, low byte first. */
  function U16Bytes(v: u16): (r: bytes)
    ensures |r| == 2
    ensures U16Of(r[0], r[1]) == v
  {
    [v % 0x100, v / 0x100]
  }

  /** Reads a little-endian 16-bit field from its low and high byte. */
  function U16Of(lo: u8, hi: u8): (r: u16)
    ensures r % 0x100 == lo && r / 0x100 == hi
  {
    lo + 0x100 * hi
  }

  /** The `(int16_t)` cast of a 16-bit pattern: two's complement. */
  function AsI16(u: u16): (r: i16)
    ensures r < 0 <==> u >= 0x8000
    ensures (u - r) % 0x1_0000 == 0
  {
    if u < 0x8000 then u else u - 0x1_0000
  }

  /** The bit pattern an `int16_t` is stored as. */
  function AsU16(v: i16): (r: u16)
    ensures AsI16(r) == v
  {
    if v < 0 then v + 0x1_0000 else v
  }

  /** The `(int8_t)` cast of a byte. */
  function AsI8(u: u8): (r: i8)
    ensures r < 0 <==> u >= 0x80
    ensures (u - r) % 0x100 == 0
  {
    if u < 0x80 then u else u - 0x100
  }

  lemma I16RoundTrip(u: u16)
    ensures AsU16(AsI16(u)) == u
  {
  }

  /** Reads a little-endian 32-bit value from four bytes. */
  function U32Of(b0: u8, b1: u8, b2: u8, b3: u8): (r: u32)
    ensures r % 0x100 == b0 && (r / 0x100) % 0x100 == b1
    ensures (r / 0x1_0000) % 0x100 == b2 && r / 0x100_0000 == b3
  {
    var r := b0 + 0x100 * b1 + 0x1_0000 * b2 + 0x100_0000 * b3;
    var above1 := b1 + 0x100 * b2 + 0x1_0000 * b3;
    var above2 := b2 + 0x100 * b3;
    assert r == b0 + 0x100 * above1 && above1 == b1 + 0x100 * above2;
    assert r / 0x100 == above1 && r % 0x100 == b0;
    assert above1 % 0x100 == b1;
    assert r == (b0 + 0x100 * b1) + 0x1_0000 * above2;
    assert r / 0x1_0000 == above2 && above2 % 0x100 == b2;
    assert r == (b0 + 0x100 * b1 + 0x1_0000 * b2) + 0x100_0000 * b3;
    r
  }

  /**
    What a read of `prefix` into a buffer that held `base` leaves there:
    the bytes that arrived replace the leading bytes, the rest is kept.
   */
  function Overlay(base: bytes, prefix: bytes): (r: bytes)
    requires |prefix| <= |base|
    ensures |r| == |base|
    ensures r[..|prefix|] == prefix && r[|prefix|..] == base[|prefix|..]
  {
    prefix + base[|prefix|..]
  }

  lemma OverlayEmpty(base: bytes)
    ensures Overlay(base, []) == base
  {
  }

  lemma OverlayFull(base: bytes, prefix: bytes)
    requires |prefix| == |base|
    ensures Overlay(base, prefix) == prefix
  {
  }
}
