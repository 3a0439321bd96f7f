/**
 * Fixed-width integers and byte-order helpers shared by the Modbus, EEPROM
 * and flash models.  The firmware runs on a little-endian ESP32, so the
 * object representation of a uint16_t or uint32_t is its low byte first,
 * whereas Modbus puts 16-bit fields on the wire high byte first.
 */
module Bytes {

  datatype Option<T> = None | Some(value: T)

  const U16_LIMIT: int := 0x1_0000
  const U32_LIMIT: int := 0x1_0000_0000

  /** A uint8_t. */
  type byte = x: int | 0 <= x < 256

  /** A uint16_t. */
  type u16 = x: int | 0 <= x < U16_LIMIT

  /** A uint32_t (also the ESP32's unsigned long). */
  type u32 = x: int | 0 <= x < U32_LIMIT

  /** `x++` on a uint32_t: wraps to 0 after 2^32 - 1. */
  function Inc32(x: u32): u32
  {
    if x == U32_LIMIT - 1 then 0 else x + 1
  }

  /** Sum of two uint32_t values as the hardware computes it. */
  function Add32(a: u32, b: u32): u32
  {
    (a + b) % U32_LIMIT
  }

  /** Difference of two size_t values on the 32-bit ESP32: wraps below 0. */
  function Sub32(a: u32, b: u32): u32
  {
    (a - b) % U32_LIMIT
  }

  /** Incrementing one addend of a wrapping sum increments the sum. */
  lemma IncAdd32(a: u32, b: u32)
    ensures Inc32(Add32(a, b)) == Add32(Inc32(a), b)
    ensures Inc32(Add32(a, b)) == Add32(a, Inc32(b))
  {
    if a + b < U32_LIMIT {
      assert Add32(a, b) == a + b;
    } else {
      assert Add32(a, b) == a + b - U32_LIMIT;
    }
  }

  function Hi(w: u16): byte { w / 256 }
  function Lo(w: u16): byte { w % 256 }

  /** The 16-bit value whose high byte is `hi` and low byte is `lo`. */
  function Word(hi: byte, lo: byte): u16 { hi * 256 + lo }

  lemma WordSplit(w: u16)
    ensures Word(Hi(w), Lo(w)) == w
  {
  }

  lemma SplitWord(hi: byte, lo: byte)
    ensures Hi(Word(hi, lo)) == hi && Lo(Word(hi, lo)) == lo
  {
  }

  /** Little-endian object representation of a uint16_t. */
  function Le16(w: u16): seq<byte> { [Lo(w), Hi(w)] }

  function FromLe16(b: seq<byte>): u16
    requires |b| >= 2
  {
    Word(b[1], b[0])
  }

  lemma Le16RoundTrip(w: u16)
    ensures FromLe16(Le16(w)) == w
  {
  }

  /** Little-endian object representation of a uint32_t. */
  function Le32(w: u32): seq<byte>
  {
    var q1 := w as int / 256; var q2 := q1 / 256;
    [w as int % 256, q1 % 256, q2 % 256, q2 / 256]
  }

  function FromLe32(b: seq<byte>): u32
    requires |b| >= 4
  {
    b[0] as int + 256 * (b[1] as int + 256 * (b[2] as int + 256 * b[3] as int))
  }

  lemma Le32RoundTrip(w: u32)
    ensures FromLe32(Le32(w)) == w
  {
    var q1 := w as int / 256;
    var q2 := q1 / 256;
    assert w == w % 256 + 256 * q1;
    assert q1 == q1 % 256 + 256 * q2;
    assert q2 == q2 % 256 + 256 * (q2 / 256);
  }

  function Min(a: int, b: int): int { if a < b then a else b }
}
