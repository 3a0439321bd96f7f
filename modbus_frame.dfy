/**
 * Modbus RTU frames as the master builds and recognises them: the request
 * encoders of ModbusManager and of modbus_rtu.cpp (both copies build the same
 * bytes), the rule that ends the receive loop, and the classification of a
 * received frame into one of four outcomes.
 */
module ModbusFrame {
  import opened Bytes
  import opened Crc16

  const ReadCoils: byte := 0x01
  const ReadDiscreteInputs: byte := 0x02
  const ReadHoldingRegisters: byte := 0x03
  const ReadInputRegisters: byte := 0x04
  const WriteSingleRegister: byte := 0x06
  const WriteMultipleRegisters: byte := 0x10
  const ExceptionFlag: byte := 0x80

  /** The exception bit (0x80) of a function code. */
  predicate IsException(fc: byte) { fc >= ExceptionFlag }

  /** Size of the response buffer: at most this many bytes are read per transaction. */
  const MaxResponseSize: nat := 256
  /** Default per-transaction timeout in milliseconds. */
  const DefaultTimeoutMs: nat := 1000

  // ---------------------------------------------------------------------------
  // Requests
  // ---------------------------------------------------------------------------

  /**
   * The six-byte request of functions 0x01, 0x03, 0x04 (address, quantity)
   * and 0x06 (address, value): both 16-bit fields high byte first.
   */
  function FieldRequest(slave: byte, fc: byte, first: u16, second: u16): seq<byte>
  {
    [slave, fc, Hi(first), Lo(first), Hi(second), Lo(second)]
  }

  /** The request can be read back: slave, function code and both fields are recovered. */
  lemma FieldRequestDecodes(slave: byte, fc: byte, first: u16, second: u16)
    ensures var r := FieldRequest(slave, fc, first, second);
      |r| == 6 && r[0] == slave && r[1] == fc && Word(r[2], r[3]) == first && Word(r[4], r[5]) == second
  {
    WordSplit(first);
    WordSplit(second);
  }

  /** The encoders of functions 0x01, 0x03, 0x04 and 0x06: a six-byte array filled field by field. */
  method EncodeFieldRequest(slave: byte, fc: byte, first: u16, second: u16) returns (request: seq<byte>)
    ensures request == FieldRequest(slave, fc, first, second)
  {
    var a := new byte[6];
    a[0] := slave;
    a[1] := fc;
    a[2] := Hi(first);
    a[3] := Lo(first);
    a[4] := Hi(second);
    a[5] := Lo(second);
    request := a[..];
  }

  /** `uint8_t byteCount = quantity * 2`: the byte-count field keeps only the low eight bits. */
  function ByteCountField(quantity: u16): byte
  {
    (quantity * 2) % 256
  }

  /** Register values, each high byte first. */
  function RegisterBytes(values: seq<u16>): (r: seq<byte>)
    ensures |r| == 2 * |values|
    ensures forall i :: 0 <= i < |values| ==> r[2 * i] == Hi(values[i]) && r[2 * i + 1] == Lo(values[i])
    decreases |values|
  {
    if |values| == 0 then []
    else RegisterBytes(values[..|values| - 1]) + [Hi(values[|values| - 1]), Lo(values[|values| - 1])]
  }

  /** The two bytes of one register, for a caller whose index is a literal. */
  lemma RegisterBytesAt(values: seq<u16>, i: nat)
    requires i < |values|
    ensures RegisterBytes(values)[2 * i] == Hi(values[i]) && RegisterBytes(values)[2 * i + 1] == Lo(values[i])
  {
  }

  /**
   * The 0x10 request with a buffer large enough for all `quantity` values:
   * seven header bytes followed by two bytes per register.
   */
  function WriteMultipleRequest(slave: byte, address: u16, quantity: u16, values: seq<u16>): seq<byte>
    requires |values| >= quantity
  {
    [slave, WriteMultipleRegisters, Hi(address), Lo(address), Hi(quantity), Lo(quantity),
     ByteCountField(quantity)] + RegisterBytes(values[..quantity])
  }

  /**
   * The 0x10 request can be read back: every register is recovered from its
   * two bytes, and while the quantity fits the one-byte count field the count
   * equals the number of data bytes.
   */
  lemma WriteMultipleRequestDecodes(slave: byte, address: u16, quantity: u16, values: seq<u16>)
    requires |values| >= quantity
    ensures var r := WriteMultipleRequest(slave, address, quantity, values);
      |r| == 7 + 2 * quantity && r[0] == slave && r[1] == WriteMultipleRegisters
      && Word(r[2], r[3]) == address && Word(r[4], r[5]) == quantity
      && (quantity <= 127 ==> r[6] == |r| - 7)
      && forall i :: 0 <= i < quantity ==> Word(r[7 + 2 * i], r[8 + 2 * i]) == values[i]
  {
    var r := WriteMultipleRequest(slave, address, quantity, values);
    var data := RegisterBytes(values[..quantity]);
    assert r[7..] == data;
    assert |r| == 7 + 2 * quantity;
    if quantity <= 127 {
      assert ByteCountField(quantity) == 2 * quantity;
    }
    WordSplit(address);
    WordSplit(quantity);
    forall i | 0 <= i < quantity
      ensures Word(r[7 + 2 * i], r[8 + 2 * i]) == values[i]
    {
      assert r[7 + 2 * i] == data[2 * i] && r[8 + 2 * i] == data[2 * i + 1];
      WordSplit(values[i]);
    }
  }

  /**
   * writeMultipleRegisters: fills a buffer of 7 + 2 * quantity bytes (the
   * header, then each value high byte first in a loop) and returns it.
   */
  method EncodeWriteMultiple(slave: byte, address: u16, quantity: u16, values: seq<u16>)
    returns (request: seq<byte>)
    requires |values| >= quantity
    ensures request == WriteMultipleRequest(slave, address, quantity, values)
  {
    var q: int := quantity;
    var buf := new byte[7 + 2 * q];
    buf[0] := slave;
    buf[1] := WriteMultipleRegisters;
    buf[2] := Hi(address);
    buf[3] := Lo(address);
    buf[4] := Hi(quantity);
    buf[5] := Lo(quantity);
    buf[6] := ByteCountField(quantity);
    ghost var spec := WriteMultipleRequest(slave, address, quantity, values);
    var i := 0;
    while i < q
      invariant 0 <= i <= q
      invariant forall k :: 0 <= k < 7 + 2 * i ==> buf[k] == spec[k]
    {
      buf[7 + i * 2] := Hi(values[i]);
      buf[7 + i * 2 + 1] := Lo(values[i]);
      i := i + 1;
    }
    request := buf[..];
  }

  /** What a slave sends back for "read holding registers": slave, 0x03, byte count, values high byte first. */
  function ReadReplyPayload(slave: byte, values: seq<u16>): (p: seq<byte>)
    requires |values| <= 127
    ensures |p| == 3 + 2 * |values| && p[3..] == RegisterBytes(values)
  {
    [slave, ReadHoldingRegisters, 2 * |values|] + RegisterBytes(values)
  }

  /** As written, the 0x10 encoders size their buffer by the truncated count: 7 + byteCount bytes. */
  function AsWrittenWriteMultipleLength(quantity: u16): nat
  {
    7 + ByteCountField(quantity)
  }

  /**
   * The as-written loop stores its last byte at index 7 + 2 * quantity - 1,
   * which lies outside the 7 + byteCount buffer exactly when quantity >= 128;
   * below that the buffer is exactly WriteMultipleRequest's length.
   */
  lemma WriteMultipleOverrun(quantity: u16)
    requires quantity >= 1
    ensures 7 + 2 * quantity - 1 >= AsWrittenWriteMultipleLength(quantity) <==> quantity >= 128
    ensures quantity <= 127 ==> AsWrittenWriteMultipleLength(quantity) == 7 + 2 * quantity
  {
  }

  // ---------------------------------------------------------------------------
  // End of a response frame
  // ---------------------------------------------------------------------------

  /**
   * The receive loop's completion test, applied once at least five bytes are
   * in: an exception reply is complete at once; a read reply (0x01 to 0x04)
   * once it holds 5 + byteCount bytes; a write echo (0x06, 0x10) at 8 bytes.
   * Any other function code never completes early.
   */
  predicate FrameComplete(frame: seq<byte>)
    requires |frame| >= 5
  {
    var fc := frame[1];
    if IsException(fc) then true
    else if fc == 0x03 || fc == 0x04 || fc == 0x01 || fc == 0x02 then |frame| >= 5 + frame[2] as int
    else if fc == 0x06 || fc == 0x10 then |frame| >= 8
    else false
  }

  /** At most this many of the available bytes can be read. */
  function ReadLimit(input: seq<byte>): nat
  {
    Min(|input|, MaxResponseSize)
  }

  /** The loop, having read `n` bytes without finding a complete frame, goes on reading. */
  function StopAt(input: seq<byte>, n: nat): (r: nat)
    requires n <= ReadLimit(input)
    ensures n <= r <= ReadLimit(input)
    decreases ReadLimit(input) - n
  {
    if n >= 5 && FrameComplete(input[..n]) then n
    else if n == ReadLimit(input) then n
    else StopAt(input, n + 1)
  }

  /** How many bytes of `input` (the bytes that arrive before the line goes idle) the loop reads. */
  function ReceivedLength(input: seq<byte>): (r: nat)
    ensures r <= ReadLimit(input)
  {
    StopAt(input, 0)
  }

  lemma {:induction false} StopAtSpec(input: seq<byte>, m: nat)
    requires m <= ReadLimit(input)
    ensures var n := StopAt(input, m);
      m <= n <= ReadLimit(input)
      && (n < ReadLimit(input) ==> n >= 5 && FrameComplete(input[..n]))
      && forall k :: m <= k < n && k >= 5 ==> !FrameComplete(input[..k])
    decreases ReadLimit(input) - m
  {
    if m >= 5 && FrameComplete(input[..m]) {
    } else if m == ReadLimit(input) {
    } else {
      StopAtSpec(input, m + 1);
    }
  }

  /**
   * The loop stops at the first prefix of at least five bytes that is
   * complete; it reads everything available (up to 256 bytes) only when no
   * such prefix exists.
   */
  lemma ReceivedLengthSpec(input: seq<byte>)
    ensures var n := ReceivedLength(input);
      n <= ReadLimit(input)
      && (n < ReadLimit(input) ==> n >= 5 && FrameComplete(input[..n]))
      && forall k :: 5 <= k < n ==> !FrameComplete(input[..k])
  {
    StopAtSpec(input, 0);
  }

  /** Conversely, the first complete prefix within the read limit is where the loop stops. */
  lemma ReceivedLengthIsFirst(input: seq<byte>, k: nat)
    requires 5 <= k <= ReadLimit(input) && FrameComplete(input[..k])
    requires forall j :: 5 <= j < k ==> !FrameComplete(input[..j])
    ensures ReceivedLength(input) == k
  {
    ReceivedLengthSpec(input);
  }

  /** Completeness of a prefix depends only on its length and on bytes 1 and 2. */
  lemma CompleteDependsOnHeader(input: seq<byte>, k: nat)
    requires 5 <= k <= |input|
    ensures FrameComplete(input[..k]) ==
      (if IsException(input[1]) then true
       else if input[1] in {0x01, 0x02, 0x03, 0x04} then k >= 5 + input[2] as int
       else if input[1] in {0x06, 0x10} then k >= 8
       else false)
  {
    assert input[..k][1] == input[1] && input[..k][2] == input[2];
  }

  /** An exception reply is taken to be complete after exactly five bytes. */
  lemma ExceptionReplyLength(input: seq<byte>)
    requires |input| >= 5 && IsException(input[1])
    ensures ReceivedLength(input) == 5
  {
    CompleteDependsOnHeader(input, 5);
    ReceivedLengthIsFirst(input, 5);
  }

  /** A read reply stops after exactly 5 + byteCount bytes when that many arrive. */
  lemma ReadReplyLength(input: seq<byte>)
    requires |input| >= 3 && input[1] in {0x01, 0x02, 0x03, 0x04}
    requires 5 + input[2] as int <= |input| && 5 + input[2] as int <= MaxResponseSize
    ensures ReceivedLength(input) == 5 + input[2] as int
  {
    var k := 5 + input[2] as int;
    CompleteDependsOnHeader(input, k);
    forall j | 5 <= j < k
      ensures !FrameComplete(input[..j])
    {
      CompleteDependsOnHeader(input, j);
    }
    ReceivedLengthIsFirst(input, k);
  }

  /** A write echo stops after exactly eight bytes when that many arrive. */
  lemma EchoReplyLength(input: seq<byte>)
    requires |input| >= 8 && input[1] in {0x06, 0x10}
    ensures ReceivedLength(input) == 8
  {
    CompleteDependsOnHeader(input, 8);
    forall j | 5 <= j < 8
      ensures !FrameComplete(input[..j])
    {
      CompleteDependsOnHeader(input, j);
    }
    ReceivedLengthIsFirst(input, 8);
  }

  /** Any other function code is read until the line goes idle or 256 bytes are in. */
  lemma OtherReplyLength(input: seq<byte>)
    requires |input| >= 2 && !IsException(input[1])
    requires input[1] !in {0x01, 0x02, 0x03, 0x04, 0x06, 0x10}
    ensures ReceivedLength(input) == ReadLimit(input)
  {
    forall k | 5 <= k <= |input|
      ensures !FrameComplete(input[..k])
    {
      CompleteDependsOnHeader(input, k);
    }
    ReceivedLengthSpec(input);
  }

  /** A read reply whose byte count matches its length is received whole. */
  lemma ReadReplyReceived(payload: seq<byte>)
    requires 3 <= |payload| <= MaxResponseSize - 2
    requires payload[1] in {0x01, 0x02, 0x03, 0x04} && |payload| == 3 + payload[2] as int
    ensures ReceivedLength(WithCrc(payload)) == |payload| + 2
  {
    var frame := WithCrc(payload);
    assert frame[..|payload|] == payload;
    assert frame[1] == payload[1] && frame[2] == payload[2];
    ReadReplyLength(frame);
  }

  // ---------------------------------------------------------------------------
  // Outcome of a transaction
  // ---------------------------------------------------------------------------

  /** Every transaction ends in exactly one of these. */
  datatype Outcome = NoResponse | CrcMismatch | SlaveException(code: byte) | Completed

  /**
   * Classification in the order both sendRequest copies apply it: nothing
   * received, then the CRC, then the exception bit of the function code.
   */
  function Classify(frame: seq<byte>): Outcome
  {
    if |frame| == 0 then NoResponse
    else if !VerifyCrc(frame) then CrcMismatch
    else if IsException(frame[1]) then SlaveException(frame[2])
    else Completed
  }

  /**
   * A frame built by appending the CRC to a payload of at least three bytes
   * is never a timeout or a CRC error: it is an exception reply carrying
   * byte 2 as its code when the exception bit is set, a success otherwise;
   * and a CRC mismatch is reported exactly for non-empty frames that do not
   * verify.
   */
  lemma ClassifyFramed(payload: seq<byte>)
    requires |payload| >= 3
    ensures Classify(WithCrc(payload)) ==
      if IsException(payload[1]) then SlaveException(payload[2]) else Completed
  {
    var f := WithCrc(payload);
    var c := Le16(CrcValue(payload));
    assert f == payload + c;
    assert f[1] == payload[1] && f[2] == payload[2];
    VerifyWithCrc(payload);
    ClassifyVerified(f);
  }

  lemma ClassifyVerified(f: seq<byte>)
    requires VerifyCrc(f)
    ensures Classify(f) == if IsException(f[1]) then SlaveException(f[2]) else Completed
  {
  }

  lemma ClassifyMismatch(frame: seq<byte>)
    ensures Classify(frame) == CrcMismatch <==> |frame| > 0 && !VerifyCrc(frame)
    ensures Classify(frame).SlaveException? || Classify(frame).Completed? ==>
      |frame| >= 3 && frame == WithCrc(frame[..|frame| - 2])
  {
    VerifyCrcCharacterization(frame);
  }
}
