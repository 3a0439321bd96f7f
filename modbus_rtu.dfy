/**
 * The free-function Modbus RTU master of modbus_rtu.cpp, the copy the
 * acquisition task calls.  It shares the CRC, the request layout, the receive
 * loop and the classification with ModbusManager, but keeps no statistics,
 * guards the port with a file-static mutex, always waits MODBUS_TIMEOUT_MS
 * and fills only the length, success and exceptionCode fields of its
 * response.
 */
module ModbusRtu {
  import opened Bytes
  import opened Crc16
  import opened ModbusFrame
  import opened SerialLink

  /** MODBUS_TIMEOUT_MS: the inter-byte timeout, also the wait for the mutex. */
  const RtuTimeoutMs: nat := 1000

  /**
   * The fields modbusSendRequest sets.  `data` holds the bytes received; the
   * rest of the 256-byte buffer, slaveId, functionCode and timestamp are left
   * uninitialised by the source and are not part of the model.
   */
  datatype RtuResponse = RtuResponse(data: seq<byte>, length: nat, success: bool, exceptionCode: byte)

  /** The response returned before any byte is sent. */
  const NoExchange := RtuResponse([], 0, false, 0)

  /**
   * The response built from the received bytes: the length is always kept,
   * success only for a CRC-valid frame without the exception bit, and the
   * exception code only for a CRC-valid exception frame.
   */
  function RtuResult(frame: seq<byte>): (r: RtuResponse)
    ensures r.data == frame && r.length == |frame|
    ensures r.success <==> |frame| > 0 && VerifyCrc(frame) && !IsException(frame[1])
    ensures r.exceptionCode != 0 ==> Classify(frame) == SlaveException(r.exceptionCode)
    ensures Classify(frame).SlaveException? ==> r.exceptionCode == frame[2]
  {
    match Classify(frame)
    case NoResponse => RtuResponse(frame, |frame|, false, 0)
    case CrcMismatch => RtuResponse(frame, |frame|, false, 0)
    case SlaveException(code) => RtuResponse(frame, |frame|, false, code)
    case Completed => RtuResponse(frame, |frame|, true, 0)
  }

  /** A CRC-framed reply from a slave comes back as a success carrying the whole frame, or as its exception. */
  lemma RtuFramedReply(payload: seq<byte>)
    requires 3 <= |payload|
    ensures var r := RtuResult(WithCrc(payload));
      r.length == |payload| + 2
      && (r.success <==> !IsException(payload[1]))
      && (IsException(payload[1]) ==> r.exceptionCode == payload[2])
  {
    ClassifyFramed(payload);
    VerifyWithCrc(payload);
    assert WithCrc(payload)[1] == payload[1];
  }

  /**
   * The globals of modbus_rtu.cpp: the file-static serialMutex (only whether
   * it was created) and Serial1.
   */
  class RtuMaster {
    var mutexCreated: bool
    const port: SerialPort

    constructor (port: SerialPort)
      ensures !mutexCreated && this.port == port
    {
      mutexCreated := false;
      this.port := port;
    }

    /**
     * modbusRTUInit: the mutex is created once; `created` is whether
     * xSemaphoreCreateMutex returned a handle.  Configuring the UART is not
     * modelled.
     */
    method Init(created: bool)
      modifies this
      ensures mutexCreated == (old(mutexCreated) || created)
    {
      if !mutexCreated {
        mutexCreated := created;
      }
    }

    /**
     * modbusSendRequest: without the mutex, or when it is not obtained within
     * the timeout (`lockOk` false), nothing is sent.  Otherwise pending input
     * is discarded, the request goes out followed by its CRC (low byte
     * first), `reply` arrives, and the receive loop reads it.
     */
    method SendRequest(request: seq<byte>, lockOk: bool, reply: seq<byte>) returns (response: RtuResponse)
      modifies port
      ensures !mutexCreated || !lockOk ==>
        response == NoExchange && port.pending == old(port.pending) && port.transmitted == old(port.transmitted)
      ensures mutexCreated && lockOk ==>
        var n := ReceivedLength(reply);
        port.transmitted == old(port.transmitted) + WithCrc(request)
        && port.pending == reply[n..]
        && response == RtuResult(reply[..n])
    {
      response := NoExchange;
      if !mutexCreated {
        return;
      }
      if !lockOk {
        return;
      }
      var _ := Drain(port);
      var crc := ComputeCrc(request);
      port.Write(request + [Lo(crc), Hi(crc)]);
      port.Arrive(reply);
      assert port.pending == reply;
      var buf := new byte[MaxResponseSize];
      var bytesRead := ReceiveFrame(port, buf, RtuTimeoutMs);
      var frame := buf[..bytesRead];
      assert frame == reply[..bytesRead];
      response := response.(data := frame, length := bytesRead);
      if bytesRead == 0 {
        return;
      }
      var crcOk := CheckCrc(frame);
      if !crcOk {
        return;
      }
      if IsException(frame[1]) {
        response := response.(exceptionCode := frame[2]);
        return;
      }
      response := response.(success := true);
    }

    /** modbusReadHoldingRegisters (0x03). */
    method ReadHoldingRegisters(slave: byte, startAddress: u16, quantity: u16, lockOk: bool, reply: seq<byte>)
      returns (response: RtuResponse)
      modifies port
      ensures mutexCreated && lockOk ==>
        var n := ReceivedLength(reply);
        port.transmitted == old(port.transmitted)
          + WithCrc(FieldRequest(slave, ModbusFrame.ReadHoldingRegisters, startAddress, quantity))
        && port.pending == reply[n..] && response == RtuResult(reply[..n])
      ensures !mutexCreated || !lockOk ==>
        response == NoExchange && port.pending == old(port.pending) && port.transmitted == old(port.transmitted)
    {
      var request := EncodeFieldRequest(slave, ModbusFrame.ReadHoldingRegisters, startAddress, quantity);
      response := SendRequest(request, lockOk, reply);
    }

    /** modbusReadInputRegisters (0x04). */
    method ReadInputRegisters(slave: byte, startAddress: u16, quantity: u16, lockOk: bool, reply: seq<byte>)
      returns (response: RtuResponse)
      modifies port
      ensures mutexCreated && lockOk ==>
        var n := ReceivedLength(reply);
        port.transmitted == old(port.transmitted)
          + WithCrc(FieldRequest(slave, ModbusFrame.ReadInputRegisters, startAddress, quantity))
        && port.pending == reply[n..] && response == RtuResult(reply[..n])
      ensures !mutexCreated || !lockOk ==>
        response == NoExchange && port.pending == old(port.pending) && port.transmitted == old(port.transmitted)
    {
      var request := EncodeFieldRequest(slave, ModbusFrame.ReadInputRegisters, startAddress, quantity);
      response := SendRequest(request, lockOk, reply);
    }

    /** modbusReadCoils (0x01). */
    method ReadCoils(slave: byte, startAddress: u16, quantity: u16, lockOk: bool, reply: seq<byte>)
      returns (response: RtuResponse)
      modifies port
      ensures mutexCreated && lockOk ==>
        var n := ReceivedLength(reply);
        port.transmitted == old(port.transmitted)
          + WithCrc(FieldRequest(slave, ModbusFrame.ReadCoils, startAddress, quantity))
        && port.pending == reply[n..] && response == RtuResult(reply[..n])
      ensures !mutexCreated || !lockOk ==>
        response == NoExchange && port.pending == old(port.pending) && port.transmitted == old(port.transmitted)
    {
      var request := EncodeFieldRequest(slave, ModbusFrame.ReadCoils, startAddress, quantity);
      response := SendRequest(request, lockOk, reply);
    }

    /** modbusWriteSingleRegister (0x06). */
    method WriteSingleRegister(slave: byte, address: u16, value: u16, lockOk: bool, reply: seq<byte>)
      returns (response: RtuResponse)
      modifies port
      ensures mutexCreated && lockOk ==>
        var n := ReceivedLength(reply);
        port.transmitted == old(port.transmitted)
          + WithCrc(FieldRequest(slave, ModbusFrame.WriteSingleRegister, address, value))
        && port.pending == reply[n..] && response == RtuResult(reply[..n])
      ensures !mutexCreated || !lockOk ==>
        response == NoExchange && port.pending == old(port.pending) && port.transmitted == old(port.transmitted)
    {
      var request := EncodeFieldRequest(slave, ModbusFrame.WriteSingleRegister, address, value);
      response := SendRequest(request, lockOk, reply);
    }

    /**
     * modbusWriteMultipleRegisters (0x10), with the buffer sized for the
     * whole quantity (see EncodeWriteMultiple).
     */
    method WriteMultipleRegisters(slave: byte, startAddress: u16, quantity: u16, values: seq<u16>,
                                  lockOk: bool, reply: seq<byte>)
      returns (response: RtuResponse)
      requires |values| >= quantity
      modifies port
      ensures mutexCreated && lockOk ==>
        var n := ReceivedLength(reply);
        port.transmitted == old(port.transmitted)
          + WithCrc(WriteMultipleRequest(slave, startAddress, quantity, values))
        && port.pending == reply[n..] && response == RtuResult(reply[..n])
      ensures !mutexCreated || !lockOk ==>
        response == NoExchange && port.pending == old(port.pending) && port.transmitted == old(port.transmitted)
    {
      var request := EncodeWriteMultiple(slave, startAddress, quantity, values);
      response := SendRequest(request, lockOk, reply);
    }
  }

  // ---------------------------------------------------------------------------
  // The CRC-error diagnostic
  // ---------------------------------------------------------------------------

  /**
   * As written, the CRC-error branch recomputes the CRC over `bytesRead - 2`
   * bytes for its diagnostic print, in size_t arithmetic, whatever the
   * number of bytes received.
   */
  function AsWrittenDiagnosticSpan(bytesRead: nat): u32
    requires bytesRead <= MaxResponseSize
  {
    Sub32(bytesRead, 2)
  }

  /**
   * One stray byte followed by silence is a CRC error, and the diagnostic
   * then asks for the CRC of 2^32 - 1 bytes of a 256-byte buffer (and reads
   * the trailer at index 2^32 - 1, one byte before the buffer).
   */
  lemma DiagnosticOverrun(b: byte)
    ensures Classify([b]) == CrcMismatch
    ensures AsWrittenDiagnosticSpan(1) == U32_LIMIT - 1 > MaxResponseSize
  {
  }

  /** The diagnostic as intended: only a frame long enough to carry a CRC has one to report. */
  function DiagnosticSpan(bytesRead: nat): (r: Option<nat>)
    requires bytesRead <= MaxResponseSize
    ensures r.Some? <==> bytesRead >= 3
    ensures r.Some? ==> r.value + 2 == bytesRead && r.value == AsWrittenDiagnosticSpan(bytesRead)
  {
    if bytesRead < 3 then None else Some(bytesRead - 2)
  }
}
