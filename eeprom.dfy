/**
 * EEPROMManager (eeprom_manager.cpp, eeprom_manager.h): typed, string and
 * CRC-protected records on a 24LCxx I2C EEPROM.  Every operation is a
 * function from the Device it starts from to its status and the Device it
 * leaves (a value read also yields the bytes it copied out), and the class's
 * methods are proved to do exactly that.  The lemmas then say what the
 * operations promise: where the bytes go, what a failure leaves behind, and
 * that what was saved is loaded back.
 *
 * A record of type T is its object representation, a byte sequence of
 * sizeof(T) bytes; a uint16_t is stored low byte first, as on the ESP32.
 */
module Eeprom {
  import opened Bytes
  import opened Crc16
  import opened EepromBus

  /** EEPROM_SIZE: the default configured size, a 24LC128. */
  const DefaultSize: u16 := 16384

  /** EEPROMStatus. */
  datatype Status = Ok | TimeoutError | AddressOutOfRange | WriteFailed | ReadFailed | CrcFailed
                  | NotInitialized | InvalidSize | NullPointer

  /** The status of an operation and the device it leaves. */
  datatype Outcome = Outcome(status: Status, device: Device)

  /**
   * The status of a read, the bytes it copied to the start of the caller's
   * buffer (none when the buffer was left alone) and the device it leaves.
   */
  datatype Loaded = Loaded(status: Status, bytes: seq<byte>, device: Device)

  /** loadString's result: the String assigned to the caller's, if any. */
  datatype TextLoad = TextLoad(status: Status, text: Option<seq<byte>>, device: Device)

  /** The parts of the device an operation never changes. */
  predicate Keeps(d: Device, e: Device)
  {
    Wired(e) && e.initialized == d.initialized && e.size == d.size && e.contended == d.contended
  }

  // ---------------------------------------------------------------------------
  // Byte operations
  // ---------------------------------------------------------------------------

  /**
   * writeBytes (writeByte is the one-byte case): a null pointer is refused,
   * and every error of the raw write becomes WRITE_FAILED.
   */
  function WriteBytesOp(d: Device, address: u16, data: Option<seq<byte>>, length: nat): (r: Outcome)
    requires Wired(d)
    requires data.Some? ==> length <= |data.value| || address + length >= AddressSpace
    ensures Keeps(d, r.device)
    ensures r.status in {Ok, WriteFailed, NullPointer} && (r.status == NullPointer <==> data.None?)
    ensures r.status == Ok ==> address + length <= d.size
  {
    match data
    case None => Outcome(NullPointer, d)
    case Some(bytes) =>
      var t := RawWrite(d, address, bytes, length);
      Outcome(if t.err == EspOk then Ok else WriteFailed, t.device)
  }

  /**
   * readBytes (readByte is the one-byte case): a null buffer is refused, and
   * every error of the raw read becomes READ_FAILED.
   */
  function ReadBytesOp(d: Device, address: u16, length: nat, present: bool): (r: Loaded)
    requires Wired(d)
    ensures Keeps(d, r.device)
    ensures r.status in {Ok, ReadFailed, NullPointer} && (r.status == NullPointer <==> !present)
    ensures r.status == Ok ==> |r.bytes| == length && address + length <= d.size
    ensures r.status != Ok ==> r.bytes == []
  {
    if !present then Loaded(NullPointer, [], d)
    else
      var f := RawRead(d, address, length);
      Loaded(if f.err == EspOk then Ok else ReadFailed, f.bytes, f.device)
  }

  // ---------------------------------------------------------------------------
  // Records: save/load, saveArray/loadArray, saveWithCRC/loadWithCRC
  // ---------------------------------------------------------------------------

  /**
   * save and saveArray: a range that ends past the configured size is
   * ADDRESS_OUT_OF_RANGE before any transfer; otherwise writeBytes.
   */
  function SaveOp(d: Device, address: u16, data: Option<seq<byte>>, length: nat): (r: Outcome)
    requires Wired(d) && (data.Some? ==> length <= |data.value|)
    ensures Keeps(d, r.device)
    ensures r.status == AddressOutOfRange <==> address + length > d.size
    ensures r.status == AddressOutOfRange ==> r.device == d
  {
    if address + length > d.size then Outcome(AddressOutOfRange, d)
    else WriteBytesOp(d, address, data, length)
  }

  /** load and loadArray: the same range check, then readBytes. */
  function LoadOp(d: Device, address: u16, length: nat, present: bool): (r: Loaded)
    requires Wired(d)
    ensures Keeps(d, r.device)
    ensures r.status == AddressOutOfRange <==> address + length > d.size
    ensures r.status == AddressOutOfRange ==> r.device == d
    ensures r.status == Ok ==> |r.bytes| == length
    ensures r.status != Ok ==> r.bytes == []
  {
    if address + length > d.size then Loaded(AddressOutOfRange, [], d)
    else ReadBytesOp(d, address, length, present)
  }

  /**
   * saveWithCRC: after its own range check (record plus two bytes), the
   * record, then the CRC-16/MODBUS of the record right after it.
   */
  function SaveWithCrcOp(d: Device, address: u16, obj: seq<byte>): (r: Outcome)
    requires Wired(d)
    ensures Keeps(d, r.device)
    ensures r.status == AddressOutOfRange <==> address + |obj| + 2 > d.size
    ensures r.status in {Ok, AddressOutOfRange, WriteFailed}
    ensures r.status == AddressOutOfRange ==> r.device == d
  {
    if address + |obj| + 2 > d.size then Outcome(AddressOutOfRange, d)
    else
      var s := SaveOp(d, address, Some(obj), |obj|);
      if s.status != Ok then s
      else SaveOp(s.device, address + |obj|, Some(Le16(CrcValue(obj))), 2)
  }

  /**
   * loadWithCRC: after the same range check, the record goes straight into
   * the caller's object, then the stored CRC is read and compared with the
   * CRC of what was loaded.
   */
  function LoadWithCrcOp(d: Device, address: u16, size: nat): (r: Loaded)
    requires Wired(d)
    ensures Keeps(d, r.device)
    ensures r.status == AddressOutOfRange <==> address + size + 2 > d.size
    ensures r.status in {Ok, AddressOutOfRange, ReadFailed, CrcFailed}
    ensures r.status in {Ok, CrcFailed} ==> |r.bytes| == size
    ensures r.status == AddressOutOfRange ==> r.device == d && r.bytes == []
  {
    if address + size + 2 > d.size then Loaded(AddressOutOfRange, [], d)
    else
      var l := LoadOp(d, address, size, true);
      if l.status != Ok then l
      else
        var c := LoadOp(l.device, address + size, 2, true);
        if c.status != Ok then Loaded(c.status, l.bytes, c.device)
        else if FromLe16(c.bytes) != CrcValue(l.bytes) then Loaded(CrcFailed, l.bytes, c.device)
        else Loaded(Ok, l.bytes, c.device)
  }

  /** A record saved without error is loaded back unchanged. */
  lemma SaveLoadRoundTrip(d: Device, address: u16, obj: seq<byte>)
    requires Wired(d)
    requires SaveOp(d, address, Some(obj), |obj|).status == Ok
    requires SaveOp(d, address, Some(obj), |obj|).device.acks >= 2
    ensures var l := LoadOp(SaveOp(d, address, Some(obj), |obj|).device, address, |obj|, true);
      l.status == Ok && l.bytes == obj
  {
    RawReadAfterWrite(d, address, obj);
  }

  /** The cells a successful save leaves: the record in its range, everything else as before. */
  lemma SaveStores(d: Device, address: u16, obj: seq<byte>)
    requires Wired(d) && SaveOp(d, address, Some(obj), |obj|).status == Ok
    ensures SaveOp(d, address, Some(obj), |obj|).device.memory == Splice(d.memory, address, obj)
  {
    RawWriteStores(d, address, obj, |obj|);
    assert obj[..|obj|] == obj;
  }

  /** What a read of a range returns, when every check passes and the chip answers. */
  lemma LoadReads(d: Device, address: u16, length: nat)
    requires Wired(d) && d.initialized && !d.contended && address + length <= d.size && d.acks >= 2
    ensures var l := LoadOp(d, address, length, true);
      l.status == Ok && l.bytes == d.memory[address..address + length]
      && l.device == d.(acks := l.device.acks) && l.device.acks >= d.acks - 2
  {
  }

  /**
   * A record saved with its CRC is loaded back unchanged and its CRC
   * matches, as long as the chip answers the four read transactions.
   */
  lemma SaveWithCrcRoundTrip(d: Device, address: u16, obj: seq<byte>)
    requires Wired(d)
    requires SaveWithCrcOp(d, address, obj).status == Ok
    requires SaveWithCrcOp(d, address, obj).device.acks >= 4
    ensures var l := LoadWithCrcOp(SaveWithCrcOp(d, address, obj).device, address, |obj|);
      l.status == Ok && l.bytes == obj
  {
    var s := SaveOp(d, address, Some(obj), |obj|);
    var crc := Le16(CrcValue(obj));
    SaveStores(d, address, obj);
    SaveStores(s.device, address + |obj|, crc);
    var e := SaveWithCrcOp(d, address, obj).device;
    assert e.memory == Splice(s.device.memory, address + |obj|, crc);
    SpliceRead(d.memory, address, obj);
    SpliceReadElsewhere(s.device.memory, address + |obj|, crc, address, address + |obj|);
    SpliceRead(s.device.memory, address + |obj|, crc);
    LoadReads(e, address, |obj|);
    var l := LoadOp(e, address, |obj|, true);
    LoadReads(l.device, address + |obj|, 2);
    Le16RoundTrip(CrcValue(obj));
  }

  /**
   * When both reads go through, loadWithCRC has already copied the stored
   * record into the caller's object, and it reports CRC_FAILED exactly when
   * the two bytes after the record are not the record's CRC.
   */
  lemma LoadWithCrcChecks(d: Device, address: u16, size: nat)
    requires Wired(d) && d.initialized && !d.contended && address + size + 2 <= d.size && d.acks >= 4
    ensures var r, data := LoadWithCrcOp(d, address, size), d.memory[address..address + size];
      r.bytes == data
      && (r.status == CrcFailed <==> FromLe16(d.memory[address + size..address + size + 2]) != CrcValue(data))
      && (r.status != CrcFailed ==> r.status == Ok)
  {
    LoadReads(d, address, size);
    var l := LoadOp(d, address, size, true);
    LoadReads(l.device, address + size, 2);
  }

  // ---------------------------------------------------------------------------
  // Strings
  // ---------------------------------------------------------------------------

  /** The characters of a C string: everything before the first NUL. */
  function CString(b: seq<byte>): (r: seq<byte>)
    ensures r <= b && 0 !in r && (|r| < |b| ==> b[|r|] == 0)
  {
    if |b| == 0 || b[0] == 0 then [] else [b[0]] + CString(b[1..])
  }

  /** A terminator after the characters does not change the string they spell. */
  lemma {:induction false} CStringTerminated(b: seq<byte>)
    ensures CString(b + [0]) == CString(b)
  {
    if |b| > 0 && b[0] != 0 {
      assert (b + [0])[1..] == b[1..] + [0];
      CStringTerminated(b[1..]);
    }
  }

  /** A byte sequence without a NUL is its own C string. */
  lemma {:induction false} CStringOfPlain(b: seq<byte>)
    requires 0 !in b
    ensures CString(b) == b
  {
    if |b| > 0 {
      assert b[0] in b;
      assert forall i | 0 <= i < |b| - 1 :: b[1..][i] == b[i + 1];
      CStringOfPlain(b[1..]);
    }
  }

  /** The length prefix saveString stores: the String's length as a uint16_t, capped at maxLength. */
  function StoredLength(s: seq<byte>, maxLength: u16): (len: u16)
    ensures len <= maxLength && len <= |s|
    ensures |s| <= maxLength ==> len == |s|
  {
    var len := |s| % U16_LIMIT;
    if len > maxLength then maxLength else len
  }

  /** saveString: the two-byte length, then that many bytes of the String. */
  function SaveStringOp(d: Device, address: u16, s: seq<byte>, maxLength: u16): (r: Outcome)
    requires Wired(d)
    ensures Keeps(d, r.device)
    ensures r.status in {Ok, AddressOutOfRange, WriteFailed}
    ensures r.status == AddressOutOfRange <==> address + 2 > d.size
    ensures r.status == Ok ==> address + 2 + StoredLength(s, maxLength) <= d.size
  {
    var len := StoredLength(s, maxLength);
    var p := SaveOp(d, address, Some(Le16(len)), 2);
    if p.status != Ok then p
    else WriteBytesOp(p.device, address + 2, Some(s), len)
  }

  /**
   * loadString: the length, INVALID_SIZE when it exceeds maxLength, then the
   * bytes into a terminated buffer; the String built from that buffer stops
   * at the first NUL.
   */
  function LoadStringOp(d: Device, address: u16, maxLength: u16): (r: TextLoad)
    requires Wired(d)
    ensures Keeps(d, r.device)
    ensures r.text.Some? <==> r.status == Ok
    ensures r.text.Some? ==> |r.text.value| <= maxLength
    ensures r.status in {Ok, AddressOutOfRange, ReadFailed, InvalidSize}
    ensures r.status == AddressOutOfRange <==> address + 2 > d.size
  {
    var l := LoadOp(d, address, 2, true);
    if l.status != Ok then TextLoad(l.status, None, l.device)
    else
      var len := FromLe16(l.bytes);
      if len > maxLength then TextLoad(InvalidSize, None, l.device)
      else
        var r := ReadBytesOp(l.device, address + 2, len, true);
        if r.status != Ok then TextLoad(r.status, None, r.device)
        else TextLoad(Ok, Some(CString(r.bytes)), r.device)
  }

  /**
   * A String saved without error comes back as the part saveString stored,
   * provided that part holds no NUL and the chip answers the four reads.
   * This includes the empty String.
   */
  lemma StringRoundTrip(d: Device, address: u16, s: seq<byte>, maxLength: u16)
    requires Wired(d) && SaveStringOp(d, address, s, maxLength).status == Ok
    requires 0 !in s[..StoredLength(s, maxLength)]
    requires SaveStringOp(d, address, s, maxLength).device.acks >= 4
    ensures LoadStringOp(SaveStringOp(d, address, s, maxLength).device, address, maxLength).text
      == Some(s[..StoredLength(s, maxLength)])
  {
    var len := StoredLength(s, maxLength);
    var prefix := Le16(len);
    var p := SaveOp(d, address, Some(prefix), 2);
    SaveStores(d, address, prefix);
    var e := SaveStringOp(d, address, s, maxLength).device;
    RawWriteStores(p.device, address + 2, s, len);
    assert e.memory == Splice(p.device.memory, address + 2, s[..len]);
    SpliceRead(d.memory, address, prefix);
    SpliceReadElsewhere(p.device.memory, address + 2, s[..len], address, address + 2);
    SpliceRead(p.device.memory, address + 2, s[..len]);
    LoadReads(e, address, 2);
    Le16RoundTrip(len);
    var l := LoadOp(e, address, 2, true);
    LoadReads(l.device, address + 2, len);
    CStringOfPlain(s[..len]);
  }

  /** A stored length beyond the caller's maxLength is refused without reading the characters. */
  lemma LoadStringTooLong(d: Device, address: u16, maxLength: u16)
    requires Wired(d) && d.initialized && !d.contended && address + 2 <= d.size && d.acks >= 2
    requires FromLe16(d.memory[address..address + 2]) > maxLength
    ensures var r := LoadStringOp(d, address, maxLength);
      r.status == InvalidSize && r.text == None && r.device.memory == d.memory
  {
    LoadReads(d, address, 2);
  }

  /**
   * The length prefix saveCString stores: strlen as a uint16_t, capped at
   * maxLength - 1 computed in int, so that maxLength 0 gives 65535.
   */
  function CStringLength(strlen: nat, maxLength: u16): (len: u16)
    ensures maxLength >= 1 ==> len == Min(strlen % U16_LIMIT, maxLength - 1)
    ensures maxLength == 0 ==> len == U16_LIMIT - 1
  {
    var len := strlen % U16_LIMIT;
    if len > maxLength - 1 then (maxLength - 1) % U16_LIMIT else len
  }

  /**
   * saveCString: a null pointer is refused; otherwise the length, the
   * characters and a terminating 0 after them.  `str` holds the characters
   * before the terminator.
   */
  function SaveCStringOp(d: Device, address: u16, str: Option<seq<byte>>, maxLength: u16): (r: Outcome)
    requires Wired(d)
    ensures Keeps(d, r.device)
    ensures r.status == NullPointer <==> str.None?
    ensures r.status in {Ok, NullPointer, AddressOutOfRange, WriteFailed}
    ensures r.status == AddressOutOfRange <==> str.Some? && address + 2 > d.size
    ensures r.status == Ok ==> address + 3 + CStringLength(|str.value|, maxLength) <= d.size
  {
    match str
    case None => Outcome(NullPointer, d)
    case Some(chars) =>
      var len := CStringLength(|chars|, maxLength);
      var p := SaveOp(d, address, Some(Le16(len)), 2);
      if p.status != Ok then p
      else
        var q := WriteBytesOp(p.device, address + 2, str, len);
        if q.status != Ok then q
        else WriteBytesOp(q.device, address + 2 + len, Some([0]), 1)
  }

  /**
   * loadCString: a null buffer is refused; a stored length of maxLength or
   * more is INVALID_SIZE; otherwise the characters and a 0 after them go to
   * the caller's buffer.
   */
  function LoadCStringOp(d: Device, address: u16, present: bool, maxLength: u16): (r: Loaded)
    requires Wired(d)
    ensures Keeps(d, r.device)
    ensures r.status == NullPointer <==> !present
    ensures r.status == Ok ==> 1 <= |r.bytes| <= maxLength && r.bytes[|r.bytes| - 1] == 0
    ensures r.status != Ok ==> r.bytes == []
    ensures r.status in {Ok, NullPointer, AddressOutOfRange, ReadFailed, InvalidSize}
    ensures r.status == AddressOutOfRange <==> present && address + 2 > d.size
  {
    if !present then Loaded(NullPointer, [], d)
    else
      var l := LoadOp(d, address, 2, true);
      if l.status != Ok then Loaded(l.status, [], l.device)
      else
        var len := FromLe16(l.bytes);
        if len >= maxLength then Loaded(InvalidSize, [], l.device)
        else
          var r := ReadBytesOp(l.device, address + 2, len, true);
          if r.status != Ok then Loaded(r.status, [], r.device)
          else Loaded(Ok, r.bytes + [0], r.device)
  }

  /**
   * A C string saved without error with a positive maxLength is loaded back
   * as its first min(strlen, maxLength - 1) characters and a terminator.
   */
  lemma CStringRoundTrip(d: Device, address: u16, chars: seq<byte>, maxLength: u16)
    requires Wired(d) && SaveCStringOp(d, address, Some(chars), maxLength).status == Ok
    requires 1 <= maxLength && |chars| < U16_LIMIT
    requires SaveCStringOp(d, address, Some(chars), maxLength).device.acks >= 4
    ensures var len := Min(|chars|, maxLength - 1);
      var l := LoadCStringOp(SaveCStringOp(d, address, Some(chars), maxLength).device, address, true, maxLength);
      l.status == Ok && l.bytes == chars[..len] + [0]
  {
    var len := CStringLength(|chars|, maxLength);
    assert |chars| % U16_LIMIT == |chars|;
    assert len == Min(|chars|, maxLength - 1);
    SaveCStringStores(d, address, chars, maxLength);
    LoadStoredCString(SaveCStringOp(d, address, Some(chars), maxLength).device, address, maxLength, chars[..len]);
  }

  /** A helper for CStringRoundTrip: a length prefix below maxLength and its characters are loaded with a terminator. */
  lemma LoadStoredCString(e: Device, address: u16, maxLength: u16, chars: seq<byte>)
    requires Wired(e) && e.initialized && !e.contended && address + 2 + |chars| <= e.size && e.acks >= 4
    requires |chars| < maxLength
    requires e.memory[address..address + 2] == Le16(|chars|) && e.memory[address + 2..address + 2 + |chars|] == chars
    ensures var l := LoadCStringOp(e, address, true, maxLength); l.status == Ok && l.bytes == chars + [0]
  {
    var len := |chars|;
    var l := LoadOp(e, address, 2, true);
    assert l.status == Ok && FromLe16(l.bytes) == len && l.device == e.(acks := l.device.acks) && l.device.acks >= 2 by {
      LoadReads(e, address, 2);
      Le16RoundTrip(len);
    }
    var r := ReadBytesOp(l.device, address + 2, len, true);
    assert r.status == Ok && r.bytes == chars by {
      LoadReads(l.device, address + 2, len);
    }
  }

  /** A helper for CStringRoundTrip: where saveCString puts the length and the characters. */
  lemma SaveCStringStores(d: Device, address: u16, chars: seq<byte>, maxLength: u16)
    requires Wired(d) && SaveCStringOp(d, address, Some(chars), maxLength).status == Ok
    requires 1 <= maxLength && |chars| < U16_LIMIT
    ensures var len, m := CStringLength(|chars|, maxLength), SaveCStringOp(d, address, Some(chars), maxLength).device.memory;
      d.initialized && !d.contended && address + 2 + len < d.size
      && m[address..address + 2] == Le16(len) && m[address + 2..address + 2 + len] == chars[..len]
  {
    var len := CStringLength(|chars|, maxLength);
    var prefix := Le16(len);
    var p := SaveOp(d, address, Some(prefix), 2);
    SaveStores(d, address, prefix);
    var q := WriteBytesOp(p.device, address + 2, Some(chars), len);
    RawWriteStores(p.device, address + 2, chars, len);
    var e := SaveCStringOp(d, address, Some(chars), maxLength).device;
    RawWriteStores(q.device, address + 2 + len, [0], 1);
    assert e.memory == Splice(q.device.memory, address + 2 + len, [0]);
    SpliceRead(d.memory, address, prefix);
    SpliceReadElsewhere(p.device.memory, address + 2, chars[..len], address, address + 2);
    SpliceReadElsewhere(q.device.memory, address + 2 + len, [0], address, address + 2);
    SpliceRead(p.device.memory, address + 2, chars[..len]);
    SpliceReadElsewhere(q.device.memory, address + 2 + len, [0], address + 2, address + 2 + len);
  }

  /**
   * As written, readRaw always reads its last byte with a NACK into
   * buffer[length - 1], in size_t arithmetic, even when `length` is 0.
   */
  function AsWrittenLastByteIndex(length: u32): u32
  {
    Sub32(length, 1)
  }

  /**
   * Saving an empty String stores the length 0, so loading it asks readRaw
   * for 0 bytes, which then stores the byte it reads at index 2^32 - 1 of
   * loadString's one-byte buffer: one byte before the buffer.  For any
   * positive length the index is the buffer's last.
   */
  lemma EmptyStringReadOverrun(maxLength: u16, length: u32)
    ensures StoredLength([], maxLength) == 0
    ensures AsWrittenLastByteIndex(0) == U32_LIMIT - 1
    ensures (AsWrittenLastByteIndex(0) + 1) % U32_LIMIT == 0
    ensures length > 0 ==> AsWrittenLastByteIndex(length) == length - 1
  {
  }

  // ---------------------------------------------------------------------------
  // fill and clear
  // ---------------------------------------------------------------------------

  /** n copies of `value`: the memset buffer, or the cells a fill leaves. */
  function Repeat(value: byte, n: nat): (r: seq<byte>)
    ensures |r| == n && forall i :: 0 <= i < n ==> r[i] == value
  {
    seq(n, _ => value)
  }

  /**
   * The loop of fill: raw writes of up to one page of `value` at a time from
   * `address` on; the first error ends it with WRITE_FAILED.
   */
  function FillLoop(d: Device, address: u16, remaining: nat, value: byte): (r: Outcome)
    requires Wired(d)
    ensures Keeps(d, r.device) && r.status in {Ok, WriteFailed}
    decreases remaining
  {
    if remaining == 0 then Outcome(Ok, d)
    else
      var n := Min(remaining, PageSize);
      var t := RawWrite(d, address, Repeat(value, PageSize), n);
      if t.err != EspOk then Outcome(WriteFailed, t.device)
      else FillLoop(t.device, address + n, remaining - n, value)
  }

  /** fill (and clear, with 0xFF): the range check, then the loop. */
  function FillOp(d: Device, start: u16, length: u16, value: byte): (r: Outcome)
    requires Wired(d)
    ensures Keeps(d, r.device) && r.status in {Ok, AddressOutOfRange, WriteFailed}
    ensures r.status == AddressOutOfRange <==> start + length > d.size
    ensures r.status == AddressOutOfRange ==> r.device == d
  {
    if start + length > d.size then Outcome(AddressOutOfRange, d)
    else FillLoop(d, start, length, value)
  }

  /** A successful fill loop fills its whole range with `value`. */
  lemma {:induction false} FillLoopDone(d: Device, address: u16, remaining: nat, value: byte)
    requires Wired(d) && address + remaining <= d.size
    ensures var r := FillLoop(d, address, remaining, value);
      r.status == Ok ==> r.device.memory == Splice(d.memory, address, Repeat(value, remaining))
    decreases remaining
  {
    if remaining > 0 {
      var n := Min(remaining, PageSize);
      var page := Repeat(value, PageSize);
      var t := RawWrite(d, address, page, n);
      if t.err == EspOk {
        RawWriteStores(d, address, page, n);
        assert page[..n] == Repeat(value, n);
        FillLoopDone(t.device, address + n, remaining - n, value);
        SpliceAppend(d.memory, address, Repeat(value, n), Repeat(value, remaining - n));
        assert Repeat(value, n) + Repeat(value, remaining - n) == Repeat(value, remaining);
      }
    } else {
      SpliceEmpty(d.memory, address);
      assert Repeat(value, 0) == [];
    }
  }

  /**
   * Whatever its outcome, the fill loop changes only cells of its range, and
   * only to `value`: a leading part of the range holds `value` afterwards.
   */
  lemma {:induction false} FillLoopPartial(d: Device, address: u16, remaining: nat, value: byte)
    requires Wired(d) && address + remaining <= d.size
    ensures exists w :: 0 <= w <= remaining && FillLoop(d, address, remaining, value).device.memory == Splice(d.memory, address, Repeat(value, w))
    decreases remaining
  {
    var r := FillLoop(d, address, remaining, value);
    if remaining == 0 {
      assert r.device.memory == Splice(d.memory, address, Repeat(value, 0)) by {
        SpliceEmpty(d.memory, address);
        assert Repeat(value, 0) == [];
      }
    } else {
      var n := Min(remaining, PageSize);
      var page := Repeat(value, PageSize);
      var t := RawWrite(d, address, page, n);
      if t.err != EspOk {
        var w :| 0 <= w <= n && w <= |page| && address + w <= |d.memory| && t.device.memory == Splice(d.memory, address, page[..w]) by {
          RawWriteStores(d, address, page, n);
        }
        assert page[..w] == Repeat(value, w);
      } else {
        assert t.device.memory == Splice(d.memory, address, Repeat(value, n)) by {
          RawWriteStores(d, address, page, n);
          assert page[..n] == Repeat(value, n);
        }
        FillLoopPartial(t.device, address + n, remaining - n, value);
        var w :| 0 <= w <= remaining - n
          && FillLoop(t.device, address + n, remaining - n, value).device.memory == Splice(t.device.memory, address + n, Repeat(value, w));
        assert r.device.memory == Splice(d.memory, address, Repeat(value, n + w)) by {
          SpliceAppend(d.memory, address, Repeat(value, n), Repeat(value, w));
          assert Repeat(value, n) + Repeat(value, w) == Repeat(value, n + w);
        }
      }
    }
  }

  // ---------------------------------------------------------------------------
  // The manager
  // ---------------------------------------------------------------------------

  /**
   * EEPROMManager: its `initialized` flag, whether its I2C mutex exists, its
   * configured size, and the bus with the chip it drives.
   */
  class EepromManager {
    var initialized: bool
    var mutexCreated: bool
    var size: u16
    const bus: I2cBus

    /** The chip spans the whole 16-bit address space, and an initialised manager has its mutex. */
    predicate Valid()
      reads this, bus
    {
      |bus.memory| == AddressSpace && (initialized ==> mutexCreated)
    }

    /** Everything an operation depends on and changes. */
    function State(): (d: Device)
      reads this, bus
      ensures d.memory == bus.memory && d.acks == bus.acks
    {
      Device(initialized, size, bus.contended, bus.memory, bus.acks)
    }

    constructor (bus: I2cBus)
      ensures this.bus == bus && !initialized && !mutexCreated && size == DefaultSize
    {
      this.bus := bus;
      initialized := false;
      mutexCreated := false;
      size := DefaultSize;
    }

    /**
     * begin: records the size first; creates the mutex when there is none,
     * and fails when that fails; fails when the I2C driver cannot be
     * configured or installed; otherwise the manager is initialised, whether
     * or not the chip answers the probe.
     */
    method Begin(newSize: u16, mutexOk: bool, driverOk: bool) returns (status: Status)
      requires Valid()
      modifies this
      ensures Valid() && size == newSize
      ensures status in {Ok, NotInitialized}
      ensures status == Ok <==> (old(mutexCreated) || mutexOk) && driverOk
      ensures mutexCreated == (old(mutexCreated) || mutexOk)
      ensures initialized == (old(initialized) || status == Ok)
    {
      size := newSize;
      if !mutexCreated {
        if !mutexOk {
          return NotInitialized;
        }
        mutexCreated := true;
      }
      if !driverOk {
        return NotInitialized;
      }
      initialized := true;
      status := Ok;
    }

    /** end: releases the driver and the mutex. */
    method End()
      requires Valid()
      modifies this
      ensures Valid() && !initialized && !mutexCreated && size == old(size)
    {
      initialized := false;
      mutexCreated := false;
    }

    /** getFreeSpace: the bytes from `from` to the end of the configured size. */
    function FreeSpace(from: u16): (r: u16)
      reads this
      ensures from < size ==> from + r == size
      ensures from >= size ==> r == 0
    {
      if from >= size then 0 else size - from
    }

    /**
     * writeRaw: the checks, the mutex, then the page-write loop; the first
     * unacknowledged page write ends it with ESP_FAIL.
     */
    method WriteRaw(address: u16, data: seq<byte>, length: nat) returns (err: EspErr)
      requires Valid() && (length <= |data| || address + length >= AddressSpace)
      modifies bus
      ensures Valid()
      ensures Transfer(err, State()) == RawWrite(old(State()), address, data, length)
    {
      if !initialized {
        return InvalidState;
      }
      if address + length > size {
        return InvalidArg;
      }
      var taken := bus.TakeMutex();
      if !taken {
        return Timeout;
      }
      var done := WritePages(address, data[..length]);
      err := if done then EspOk else BusFail;
    }

    /** The loop of writeRaw: one page write per page touched, until one is not acknowledged. */
    method WritePages(address: nat, data: seq<byte>) returns (done: bool)
      requires Valid() && address + |data| <= |bus.memory|
      modifies bus
      ensures Valid() && bus.contended == old(bus.contended)
      ensures BusWrite(done, bus.memory, bus.acks) == WriteChunks(old(bus.memory), old(bus.acks), address, data)
    {
      var written := 0;
      while written < |data|
        invariant written <= |data| && Valid() && bus.contended == old(bus.contended)
        invariant WriteChunks(old(bus.memory), old(bus.acks), address, data)
          == WriteChunks(bus.memory, bus.acks, address + written, data[written..])
        decreases |data| - written
      {
        var current := address + written;
        var toWrite := Min(PageRemaining(current), |data| - written);
        ghost var before := bus.memory;
        var ok := bus.WritePage(current, data[written..written + toWrite]);
        if !ok {
          return false;
        }
        WriteChunksStep(before, bus.acks + 1, address, data, written, toWrite);
        written := written + toWrite;
      }
      done := true;
    }

    /**
     * readRaw: the checks, the mutex, a transaction that sets the chip's
     * address counter, then, for a positive length, a sequential read into
     * the start of `buffer`.
     */
    method ReadRaw(address: u16, buffer: array<byte>, length: nat) returns (err: EspErr)
      requires Valid() && length <= buffer.Length
      modifies bus, buffer
      ensures Valid()
      ensures var f := RawRead(old(State()), address, length);
        err == f.err && State() == f.device && buffer[..] == f.bytes + old(buffer[..])[|f.bytes|..]
    {
      if !initialized {
        return InvalidState;
      }
      if address + length > size {
        return InvalidArg;
      }
      var taken := bus.TakeMutex();
      if !taken {
        return Timeout;
      }
      var ok := bus.Transaction();
      if !ok {
        return BusFail;
      }
      if length == 0 {
        return EspOk;
      }
      var bytes;
      ok, bytes := bus.ReadSequential(address, length);
      if !ok {
        return BusFail;
      }
      forall i | 0 <= i < length {
        buffer[i] := bytes[i];
      }
      err := EspOk;
    }

    /** writeBytes. */
    method WriteBytes(address: u16, data: Option<seq<byte>>, length: nat) returns (status: Status)
      requires Valid() && (data.Some? ==> length <= |data.value| || address + length >= AddressSpace)
      modifies bus
      ensures Valid() && Outcome(status, State()) == WriteBytesOp(old(State()), address, data, length)
    {
      if data.None? {
        return NullPointer;
      }
      var err := WriteRaw(address, data.value, length);
      status := if err == EspOk then Ok else WriteFailed;
    }

    /** writeByte: a one-byte writeBytes. */
    method WriteByte(address: u16, value: byte) returns (status: Status)
      requires Valid()
      modifies bus
      ensures Valid() && Outcome(status, State()) == WriteBytesOp(old(State()), address, Some([value]), 1)
    {
      var err := WriteRaw(address, [value], 1);
      status := if err == EspOk then Ok else WriteFailed;
    }

    /** readBytes. */
    method ReadBytes(address: u16, buffer: array?<byte>, length: nat) returns (status: Status)
      requires Valid() && (buffer != null ==> length <= buffer.Length)
      modifies bus, buffer
      ensures Valid()
      ensures var r := ReadBytesOp(old(State()), address, length, buffer != null);
        status == r.status && State() == r.device
        && (buffer != null ==> buffer[..] == r.bytes + old(buffer[..])[|r.bytes|..])
    {
      if buffer == null {
        return NullPointer;
      }
      var err := ReadRaw(address, buffer, length);
      status := if err == EspOk then Ok else ReadFailed;
    }

    /** readByte: a one-byte readBytes. */
    method ReadByte(address: u16, data: array?<byte>) returns (status: Status)
      requires Valid() && (data != null ==> 1 <= data.Length)
      modifies bus, data
      ensures Valid()
      ensures var r := ReadBytesOp(old(State()), address, 1, data != null);
        status == r.status && State() == r.device
        && (data != null ==> data[..] == r.bytes + old(data[..])[|r.bytes|..])
    {
      status := ReadBytes(address, data, 1);
    }

    /** save: the object representation of a record. */
    method Save(address: u16, obj: seq<byte>) returns (status: Status)
      requires Valid()
      modifies bus
      ensures Valid() && Outcome(status, State()) == SaveOp(old(State()), address, Some(obj), |obj|)
    {
      if address + |obj| > size {
        return AddressOutOfRange;
      }
      status := WriteBytes(address, Some(obj), |obj|);
    }

    /** load: into the object representation of the caller's record. */
    method Load(address: u16, obj: array<byte>) returns (status: Status)
      requires Valid()
      modifies bus, obj
      ensures Valid()
      ensures var r := LoadOp(old(State()), address, obj.Length, true);
        status == r.status && State() == r.device && obj[..] == r.bytes + old(obj[..])[|r.bytes|..]
    {
      if address + obj.Length > size {
        return AddressOutOfRange;
      }
      status := ReadBytes(address, obj, obj.Length);
    }

    /** saveArray: `length` is sizeof(T) times the element count. */
    method SaveArray(address: u16, elements: Option<seq<byte>>, length: nat) returns (status: Status)
      requires Valid() && (elements.Some? ==> length <= |elements.value|)
      modifies bus
      ensures Valid() && Outcome(status, State()) == SaveOp(old(State()), address, elements, length)
    {
      if address + length > size {
        return AddressOutOfRange;
      }
      status := WriteBytes(address, elements, length);
    }

    /** loadArray: `length` is sizeof(T) times the element count. */
    method LoadArray(address: u16, elements: array?<byte>, length: nat) returns (status: Status)
      requires Valid() && (elements != null ==> length <= elements.Length)
      modifies bus, elements
      ensures Valid()
      ensures var r := LoadOp(old(State()), address, length, elements != null);
        status == r.status && State() == r.device
        && (elements != null ==> elements[..] == r.bytes + old(elements[..])[|r.bytes|..])
    {
      if address + length > size {
        return AddressOutOfRange;
      }
      status := ReadBytes(address, elements, length);
    }

    /** saveWithCRC. */
    method SaveWithCrc(address: u16, obj: seq<byte>) returns (status: Status)
      requires Valid()
      modifies bus
      ensures Valid() && Outcome(status, State()) == SaveWithCrcOp(old(State()), address, obj)
    {
      if address + |obj| + 2 > size {
        return AddressOutOfRange;
      }
      status := Save(address, obj);
      if status != Ok {
        return;
      }
      var crc := ComputeCrc(obj);
      status := Save(address + |obj|, Le16(crc));
    }

    /** loadWithCRC: the record is in the caller's object before its CRC is checked. */
    method LoadWithCrc(address: u16, obj: array<byte>) returns (status: Status)
      requires Valid()
      modifies bus, obj
      ensures Valid()
      ensures var r := LoadWithCrcOp(old(State()), address, obj.Length);
        status == r.status && State() == r.device && obj[..] == r.bytes + old(obj[..])[|r.bytes|..]
    {
      if address + obj.Length + 2 > size {
        return AddressOutOfRange;
      }
      ghost var d := State();
      status := Load(address, obj);
      if status != Ok {
        return;
      }
      ghost var l := LoadOp(d, address, obj.Length, true);
      assert obj[..] == l.bytes;
      var stored := new byte[2];
      status := Load(address + obj.Length, stored);
      assert obj[..] == l.bytes;
      if status != Ok {
        return;
      }
      var computed := ComputeCrc(obj[..]);
      if FromLe16(stored[..]) != computed {
        return CrcFailed;
      }
    }

    /** saveString. */
    method SaveString(address: u16, str: seq<byte>, maxLength: u16) returns (status: Status)
      requires Valid()
      modifies bus
      ensures Valid() && Outcome(status, State()) == SaveStringOp(old(State()), address, str, maxLength)
    {
      var length: u16 := |str| % U16_LIMIT;
      if length > maxLength {
        length := maxLength;
      }
      status := Save(address, Le16(length));
      if status != Ok {
        return;
      }
      status := WriteBytes(address + 2, Some(str), length);
    }

    /** loadString: `result` is the caller's String afterwards. */
    method LoadString(address: u16, str: seq<byte>, maxLength: u16) returns (status: Status, result: seq<byte>)
      requires Valid()
      modifies bus
      ensures Valid()
      ensures var r := LoadStringOp(old(State()), address, maxLength);
        status == r.status && State() == r.device && result == (if r.text.Some? then r.text.value else str)
    {
      result := str;
      var stored := new byte[2];
      status := Load(address, stored);
      if status != Ok {
        return;
      }
      var length := FromLe16(stored[..]);
      if length > maxLength {
        return InvalidSize, str;
      }
      var buffer := new byte[length + 1];
      status := ReadBytes(address + 2, buffer, length);
      if status != Ok {
        return;
      }
      ghost var bytes := buffer[..length];
      buffer[length] := 0;
      assert buffer[..] == bytes + [0];
      CStringTerminated(bytes);
      result := CString(buffer[..]);
    }

    /** saveCString: `str` is absent for a null pointer. */
    method SaveCString(address: u16, str: Option<seq<byte>>, maxLength: u16) returns (status: Status)
      requires Valid()
      modifies bus
      ensures Valid() && Outcome(status, State()) == SaveCStringOp(old(State()), address, str, maxLength)
    {
      if str.None? {
        return NullPointer;
      }
      var length: u16 := |str.value| % U16_LIMIT;
      if length > maxLength - 1 {
        length := (maxLength - 1) % U16_LIMIT;
      }
      status := Save(address, Le16(length));
      if status != Ok {
        return;
      }
      status := WriteBytes(address + 2, str, length);
      if status != Ok {
        return;
      }
      status := WriteByte(address + 2 + length, 0);
    }

    /** loadCString: the buffer holds maxLength characters. */
    method LoadCString(address: u16, buffer: array?<byte>, maxLength: u16) returns (status: Status)
      requires Valid() && (buffer != null ==> maxLength <= buffer.Length)
      modifies bus, buffer
      ensures Valid()
      ensures var r := LoadCStringOp(old(State()), address, buffer != null, maxLength);
        status == r.status && State() == r.device
        && (buffer != null ==> buffer[..] == r.bytes + old(buffer[..])[|r.bytes|..])
    {
      if buffer == null {
        return NullPointer;
      }
      ghost var d := State();
      ghost var before := buffer[..];
      var stored := new byte[2];
      status := Load(address, stored);
      ghost var l := LoadOp(d, address, 2, true);
      assert buffer[..] == before;
      if status != Ok {
        assert LoadCStringOp(d, address, true, maxLength) == Loaded(l.status, [], l.device);
        return;
      }
      var length := FromLe16(stored[..]);
      if length >= maxLength {
        assert LoadCStringOp(d, address, true, maxLength) == Loaded(InvalidSize, [], l.device);
        return InvalidSize;
      }
      ghost var r := ReadBytesOp(l.device, address + 2, length, true);
      status := ReadBytes(address + 2, buffer, length);
      if status != Ok {
        assert LoadCStringOp(d, address, true, maxLength) == Loaded(r.status, [], r.device);
        return;
      }
      assert buffer[..] == r.bytes + before[length..];
      buffer[length] := 0;
      assert buffer[..] == r.bytes + [0] + before[length + 1..];
      assert LoadCStringOp(d, address, true, maxLength) == Loaded(Ok, r.bytes + [0], r.device);
    }

    /** fill: the range check, then writeRaw page by page from a buffer of `value`. */
    method Fill(start: u16, length: u16, value: byte) returns (status: Status)
      requires Valid()
      modifies bus
      ensures Valid() && Outcome(status, State()) == FillOp(old(State()), start, length, value)
    {
      if start + length > size {
        return AddressOutOfRange;
      }
      var fillBuffer := Repeat(value, PageSize);
      var remaining: nat := length;
      var address: u16 := start;
      while remaining > 0
        invariant Valid() && address + remaining <= size
        invariant initialized == old(initialized) && bus.contended == old(bus.contended)
        invariant FillLoop(old(State()), start, length, value) == FillLoop(State(), address, remaining, value)
        decreases remaining
      {
        var toWrite := if remaining > PageSize then PageSize else remaining;
        var err := WriteRaw(address, fillBuffer, toWrite);
        if err != EspOk {
          return WriteFailed;
        }
        address := address + toWrite;
        remaining := remaining - toWrite;
      }
      status := Ok;
    }

    /** clear: fill with 0xFF, after the same range check. */
    method Clear(start: u16, length: u16) returns (status: Status)
      requires Valid()
      modifies bus
      ensures Valid() && Outcome(status, State()) == FillOp(old(State()), start, length, 0xFF)
    {
      if start + length > size {
        return AddressOutOfRange;
      }
      status := Fill(start, length, 0xFF);
    }

    /** clearAll: clear the whole configured size. */
    method ClearAll() returns (status: Status)
      requires Valid()
      modifies bus
      ensures Valid() && Outcome(status, State()) == FillOp(old(State()), 0, old(size), 0xFF)
    {
      status := Clear(0, size);
    }
  }
}
