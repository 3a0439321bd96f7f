/**
 * CRC-16/MODBUS: initial value 0xFFFF, reflected polynomial 0xA001, eight
 * right shifts per byte, no final XOR (section 6.2.2 of "MODBUS over Serial
 * Line, Specification and Implementation Guide V1.02").  The same table-free
 * nested loop appears four times in the firmware: ModbusManager::calculateCRC,
 * modbusCalculateCRC, EEPROMManager::calculateCRC16 and
 * FlashStorageManager::calculateCRC16.  ComputeCrc models each of them.
 */
module Crc16 {
  import opened Bytes

  const Seed: bv16 := 0xFFFF
  const Poly: bv16 := 0xA001

  /** One iteration of the inner loop. */
  function ShiftOnce(c: bv16): bv16
  {
    if c & 1 == 1 then (c >> 1) ^ Poly else c >> 1
  }

  /** `k` iterations of the inner loop. */
  function Shifts(c: bv16, k: nat): bv16
    decreases k
  {
    if k == 0 then c else ShiftOnce(Shifts(c, k - 1))
  }

  /** `crc ^= buf[pos]`: the byte enters the low eight bits of the register. */
  function XorByte(crc: bv16, b: byte): bv16
  {
    crc ^ b as bv16
  }

  /** The effect of one outer-loop iteration on the running register. */
  function Absorb(crc: bv16, b: byte): bv16
  {
    Shifts(XorByte(crc, b), 8)
  }

  /** The CRC register after a whole buffer, byte by byte from the seed. */
  function Crc(s: seq<byte>): bv16
    decreases |s|
  {
    if |s| == 0 then Seed else Absorb(Crc(s[..|s| - 1]), s[|s| - 1])
  }

  /**
   * The number a 16-bit register holds.  The conversion is reached through
   * `n` trivial levels: CrcValue passes a depth that depends on the buffer,
   * so a proof meets the bit-vector-to-integer conversion only where it
   * invokes ValueIsNumber.
   */
  function Value(c: bv16, n: nat): u16
    decreases n
  {
    if n == 0 then c as int else Value(c, n - 1)
  }

  /** Every depth gives the register's number. */
  lemma {:induction false} ValueIsNumber(c: bv16, n: nat)
    ensures Value(c, n) == c as int
    decreases n
  {
    if n > 0 {
      ValueIsNumber(c, n - 1);
    }
  }

  /** The CRC of a buffer as a number. */
  function CrcValue(s: seq<byte>): u16
  {
    Value(Crc(s), |s| + 1)
  }

  /** The firmware's nested loop, proved to compute the CRC; the register is returned as a number. */
  method ComputeCrc(buf: seq<byte>) returns (value: u16)
    ensures value == CrcValue(buf)
  {
    var crc: bv16 := 0xFFFF;
    var pos := 0;
    while pos < |buf|
      invariant 0 <= pos <= |buf|
      invariant crc == Crc(buf[..pos])
    {
      crc := XorByte(crc, buf[pos]);
      ghost var mixed := crc;
      var i := 0;
      while i < 8
        invariant 0 <= i <= 8
        invariant crc == Shifts(mixed, i)
      {
        if crc & 0x0001 != 0 {
          crc := (crc >> 1) ^ 0xA001;
        } else {
          crc := crc >> 1;
        }
        i := i + 1;
      }
      assert buf[..pos + 1][..pos] == buf[..pos];
      pos := pos + 1;
    }
    assert buf[..pos] == buf;
    value := crc as int;
    ValueIsNumber(crc, |buf| + 1);
  }

  /** A frame: the payload followed by its CRC, low byte first. */
  function WithCrc(payload: seq<byte>): (r: seq<byte>)
    ensures |r| == |payload| + 2 && r[..|payload|] == payload
  {
    payload + Le16(CrcValue(payload))
  }

  /**
   * verifyCRC: a buffer shorter than three bytes fails; otherwise the last
   * two bytes, low byte first, must equal the CRC of everything before them.
   */
  predicate VerifyCrc(frame: seq<byte>)
  {
    |frame| >= 3 && Word(frame[|frame| - 1], frame[|frame| - 2]) == CrcValue(frame[..|frame| - 2])
  }

  /** verifyCRC itself: compares the received trailer with the CRC the loop computes. */
  method CheckCrc(buf: seq<byte>) returns (ok: bool)
    ensures ok == VerifyCrc(buf)
  {
    if |buf| < 3 {
      return false;
    }
    var received := Word(buf[|buf| - 1], buf[|buf| - 2]);
    var computed := ComputeCrc(buf[..|buf| - 2]);
    ok := received == computed;
  }

  /** verifyCRC accepts exactly the frames built by appending the CRC to a non-empty payload. */
  lemma VerifyCrcCharacterization(frame: seq<byte>)
    ensures VerifyCrc(frame) <==> |frame| >= 3 && frame == WithCrc(frame[..|frame| - 2])
  {
    if |frame| >= 3 {
      var n := |frame| - 2;
      var p := frame[..n];
      var c := CrcValue(p);
      assert WithCrc(p) == p + [Lo(c), Hi(c)];
      assert frame == p + [frame[n], frame[n + 1]];
      assert VerifyCrc(frame) <==> Word(frame[n + 1], frame[n]) == c;
      SplitWord(frame[n + 1], frame[n]);
      WordSplit(c);
    }
  }

  /** Round trip: appending the CRC to any non-empty payload yields a frame that verifies. */
  lemma VerifyWithCrc(payload: seq<byte>)
    requires |payload| >= 1
    ensures VerifyCrc(WithCrc(payload))
  {
    var f := WithCrc(payload);
    assert f[..|f| - 2] == payload;
    VerifyCrcCharacterization(f);
  }

  /** Absorbing one more byte: the outer loop's step. */
  lemma CrcSnoc(s: seq<byte>, b: byte)
    ensures Crc(s + [b]) == Absorb(Crc(s), b)
  {
    assert (s + [b])[..|s|] == s;
  }

  /** Published check value of CRC-16/MODBUS: the CRC of the ASCII string "123456789" is 0x4B37. */
  lemma CheckValue()
    ensures Crc([]) == 0xFFFF
    ensures Crc([0x31, 0x32, 0x33, 0x34, 0x35, 0x36, 0x37, 0x38, 0x39]) == 0x4B37
  {
    var s: seq<byte> := [];
    assert Absorb(0xFFFF, 0x31) == 0x947E;
    CrcSnoc(s, 0x31); s := s + [0x31];
    assert Absorb(0x947E, 0x32) == 0xF595;
    CrcSnoc(s, 0x32); s := s + [0x32];
    assert Absorb(0xF595, 0x33) == 0x7A75;
    CrcSnoc(s, 0x33); s := s + [0x33];
    assert Absorb(0x7A75, 0x34) == 0x30BA;
    CrcSnoc(s, 0x34); s := s + [0x34];
    assert Absorb(0x30BA, 0x35) == 0xA471;
    CrcSnoc(s, 0x35); s := s + [0x35];
    assert Absorb(0xA471, 0x36) == 0x32E4;
    CrcSnoc(s, 0x36); s := s + [0x36];
    assert Absorb(0x32E4, 0x37) == 0x9D73;
    CrcSnoc(s, 0x37); s := s + [0x37];
    assert Absorb(0x9D73, 0x38) == 0x37DD;
    CrcSnoc(s, 0x38); s := s + [0x38];
    assert Absorb(0x37DD, 0x39) == 0x4B37;
    CrcSnoc(s, 0x39); s := s + [0x39];
    assert s == [0x31, 0x32, 0x33, 0x34, 0x35, 0x36, 0x37, 0x38, 0x39];
  }

  /** The request "read two holding registers at 0 from slave 1" carries the CRC bytes C4 0B. */
  lemma ReadRequestVector()
    ensures WithCrc([0x01, 0x03, 0x00, 0x00, 0x00, 0x02]) == [0x01, 0x03, 0x00, 0x00, 0x00, 0x02, 0xC4, 0x0B]
  {
    var s: seq<byte> := [];
    assert Absorb(0xFFFF, 0x01) == 0x807E;
    CrcSnoc(s, 0x01); s := s + [0x01];
    assert Absorb(0x807E, 0x03) == 0x2140;
    CrcSnoc(s, 0x03); s := s + [0x03];
    assert Absorb(0x2140, 0x00) == 0xF020;
    CrcSnoc(s, 0x00); s := s + [0x00];
    assert Absorb(0xF020, 0x00) == 0xD8F1;
    CrcSnoc(s, 0x00); s := s + [0x00];
    assert Absorb(0xD8F1, 0x00) == 0x8419;
    CrcSnoc(s, 0x00); s := s + [0x00];
    assert Absorb(0x8419, 0x02) == 0x0BC4;
    CrcSnoc(s, 0x02); s := s + [0x02];
    assert s == [0x01, 0x03, 0x00, 0x00, 0x00, 0x02];
    assert CrcValue(s) == 0x0BC4;
  }
}
