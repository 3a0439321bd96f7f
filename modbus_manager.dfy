/**
 * ModbusManager: the Modbus RTU master class with statistics.  One
 * transaction drains the receive buffer, sends the request with its CRC,
 * runs the shared receive loop and classifies what came back, counting the
 * outcome in the statistics.  FreeRTOS locking is atomic here, the clock is
 * given as the readings `requestTime` and `responseTime`, and the slave's
 * reply is the sequence of bytes that arrive after the request is sent.
 */
module ModbusMgr {
  import opened Bytes
  import opened Crc16
  import opened ModbusFrame
  import opened SerialLink

  // ---------------------------------------------------------------------------
  // Responses
  // ---------------------------------------------------------------------------

  /** ModbusResponse: the 256-byte receive buffer and what was decoded from it. */
  datatype ModbusResponse = ModbusResponse(
    data: seq<byte>,
    length: nat,
    success: bool,
    exceptionCode: byte,
    slaveId: byte,
    functionCode: byte,
    timestamp: u32)

  function Zeros(n: nat): (z: seq<byte>)
    ensures |z| == n && forall i :: 0 <= i < n ==> z[i] == 0
  {
    seq(n, _ => 0)
  }

  /** The zero-filled response returned before anything is sent. */
  const EmptyResponse := ModbusResponse(Zeros(MaxResponseSize), 0, false, 0, 0, 0, 0)

  /**
   * The response sendRequest returns for the received frame: the buffer holds
   * the frame followed by zeros; an exception reply records its code, the
   * slave and the function code without the exception bit; a success records
   * the slave, the function code and the time.
   */
  function ManagerResponse(frame: seq<byte>, now: u32): (r: ModbusResponse)
    requires |frame| <= MaxResponseSize
    ensures |r.data| == MaxResponseSize && r.data[..|frame|] == frame && r.length == |frame|
    ensures r.success <==> Classify(frame) == Completed
    ensures Classify(frame).SlaveException? ==>
      r.exceptionCode == Classify(frame).code && r.slaveId == frame[0]
      && r.functionCode + ExceptionFlag == frame[1] && r.timestamp == 0
    ensures Classify(frame) == Completed ==>
      r.exceptionCode == 0 && r.slaveId == frame[0] && r.functionCode == frame[1] && r.timestamp == now
    ensures Classify(frame) in {NoResponse, CrcMismatch} ==>
      r.exceptionCode == 0 && r.slaveId == 0 && r.functionCode == 0 && r.timestamp == 0
  {
    var base := ModbusResponse(frame + Zeros(MaxResponseSize - |frame|), |frame|, false, 0, 0, 0, 0);
    assert base.data[..|frame|] == frame;
    match Classify(frame)
    case NoResponse => base
    case CrcMismatch => base
    case SlaveException(code) =>
      base.(exceptionCode := code, slaveId := frame[0], functionCode := frame[1] % 128)
    case Completed =>
      base.(success := true, slaveId := frame[0], functionCode := frame[1], timestamp := now)
  }

  // ---------------------------------------------------------------------------
  // Statistics
  // ---------------------------------------------------------------------------

  datatype ModbusStats = ModbusStats(
    totalRequests: u32,
    successfulRequests: u32,
    failedRequests: u32,
    timeouts: u32,
    crcErrors: u32,
    exceptions: u32,
    lastRequestTime: u32,
    lastResponseTime: u32)

  /** The memset state of the constructor and of resetStats. */
  const ZeroStats := ModbusStats(0, 0, 0, 0, 0, 0, 0, 0)

  /**
   * The counters' invariant: every request succeeded or failed, and every
   * failure was a timeout, a CRC error or an exception, all in the
   * counters' own 32-bit arithmetic.
   */
  predicate Consistent(s: ModbusStats)
  {
    s.totalRequests == Add32(s.successfulRequests, s.failedRequests)
    && s.failedRequests == Add32(Add32(s.timeouts, s.crcErrors), s.exceptions)
  }

  /** The statistics after one initialised transaction with the given outcome. */
  function Record(s: ModbusStats, outcome: Outcome, requestTime: u32, responseTime: u32): ModbusStats
  {
    var t := s.(totalRequests := Inc32(s.totalRequests), lastRequestTime := requestTime,
                lastResponseTime := responseTime);
    match outcome
    case NoResponse => t.(timeouts := Inc32(t.timeouts), failedRequests := Inc32(t.failedRequests))
    case CrcMismatch => t.(crcErrors := Inc32(t.crcErrors), failedRequests := Inc32(t.failedRequests))
    case SlaveException(_) => t.(exceptions := Inc32(t.exceptions), failedRequests := Inc32(t.failedRequests))
    case Completed => t.(successfulRequests := Inc32(t.successfulRequests))
  }

  /** Every transaction keeps the counters consistent. */
  lemma RecordPreservesConsistency(s: ModbusStats, outcome: Outcome, requestTime: u32, responseTime: u32)
    requires Consistent(s)
    ensures Consistent(Record(s, outcome, requestTime, responseTime))
  {
    IncAdd32(s.successfulRequests, s.failedRequests);
    IncAdd32(Add32(s.timeouts, s.crcErrors), s.exceptions);
    IncAdd32(s.timeouts, s.crcErrors);
  }

  /** One transaction as the statistics see it. */
  datatype Transaction = Transaction(outcome: Outcome, requestTime: u32, responseTime: u32)

  /** The statistics after a sequence of transactions, oldest first. */
  function Replay(s: ModbusStats, log: seq<Transaction>): ModbusStats
    decreases |log|
  {
    if |log| == 0 then s
    else
      var last := log[|log| - 1];
      Record(Replay(s, log[..|log| - 1]), last.outcome, last.requestTime, last.responseTime)
  }

  /** How many transactions of the log satisfy `p`. */
  function Tally(log: seq<Transaction>, p: Outcome -> bool): nat
    decreases |log|
  {
    if |log| == 0 then 0
    else Tally(log[..|log| - 1], p) + (if p(log[|log| - 1].outcome) then 1 else 0)
  }

  lemma IncMod(x: nat)
    ensures Inc32(x % U32_LIMIT) == (x + 1) % U32_LIMIT
  {
  }

  /**
   * From resetStats on, each counter is the number of transactions of its
   * kind, modulo 2^32, and the counters stay consistent.
   */
  lemma {:induction false} ReplayCounts(log: seq<Transaction>)
    ensures var s := Replay(ZeroStats, log);
      Consistent(s)
      && s.totalRequests == |log| % U32_LIMIT
      && s.successfulRequests == Tally(log, (o: Outcome) => o.Completed?) % U32_LIMIT
      && s.timeouts == Tally(log, (o: Outcome) => o.NoResponse?) % U32_LIMIT
      && s.crcErrors == Tally(log, (o: Outcome) => o.CrcMismatch?) % U32_LIMIT
      && s.exceptions == Tally(log, (o: Outcome) => o.SlaveException?) % U32_LIMIT
    decreases |log|
  {
    if |log| > 0 {
      var init := log[..|log| - 1];
      var last := log[|log| - 1];
      ReplayCounts(init);
      var s := Replay(ZeroStats, init);
      RecordPreservesConsistency(s, last.outcome, last.requestTime, last.responseTime);
      IncMod(|init|);
      IncMod(Tally(init, (o: Outcome) => o.Completed?));
      IncMod(Tally(init, (o: Outcome) => o.NoResponse?));
      IncMod(Tally(init, (o: Outcome) => o.CrcMismatch?));
      IncMod(Tally(init, (o: Outcome) => o.SlaveException?));
    }
  }

  // ---------------------------------------------------------------------------
  // Exception descriptions
  // ---------------------------------------------------------------------------

  const UnknownException := "Excepción desconocida"

  /** getExceptionDescription: the text for each standard exception code. */
  function ExceptionDescription(code: byte): (r: string)
    ensures r == UnknownException <==> code !in {0x01, 0x02, 0x03, 0x04, 0x05, 0x06, 0x08, 0x0A, 0x0B}
  {
    match code
    case 0x01 => "Función ilegal"
    case 0x02 => "Dirección de datos ilegal"
    case 0x03 => "Valor de datos ilegal"
    case 0x04 => "Fallo del dispositivo esclavo"
    case 0x05 => "Reconocer"
    case 0x06 => "Dispositivo esclavo ocupado"
    case 0x08 => "Error de paridad de memoria"
    case 0x0A => "Gateway path unavailable"
    case 0x0B => "Gateway target device failed to respond"
    case _ => UnknownException
  }

  /** Distinct known codes have distinct descriptions. */
  lemma ExceptionDescriptionsDistinct(a: byte, b: byte)
    requires a != b && ExceptionDescription(a) != UnknownException
    ensures ExceptionDescription(a) != ExceptionDescription(b)
  {
  }

  // ---------------------------------------------------------------------------
  // Register extraction
  // ---------------------------------------------------------------------------

  /** The big-endian registers that start at offset 3 of a read reply. */
  function Registers(data: seq<byte>, count: nat): (r: seq<u16>)
    requires 3 + 2 * count <= |data|
    ensures |r| == count
  {
    seq(count, i requires 0 <= i < count => Word(data[3 + 2 * i], data[4 + 2 * i]))
  }

  /**
   * As written, extractRegisters takes byteCount / 2 registers, capped only
   * by the caller's buffer size.
   */
  function AsWrittenRegisterCount(response: ModbusResponse, maxRegisters: nat): nat
    requires |response.data| == MaxResponseSize
  {
    if !response.success || response.length < 5 then 0
    else Min(response.data[2] as int / 2, maxRegisters)
  }

  /**
   * The register loop reads data[3 + 2i] and data[4 + 2i]; the last index
   * of the 256-byte buffer allows at most 126 registers.
   */
  const MaxExtractable: nat := (MaxResponseSize - 3) / 2

  /** The count also capped by the end of the response buffer. */
  function RegisterCount(response: ModbusResponse, maxRegisters: nat): (n: nat)
    requires |response.data| == MaxResponseSize
    ensures n <= AsWrittenRegisterCount(response, maxRegisters) && 3 + 2 * n <= MaxResponseSize
    ensures n == AsWrittenRegisterCount(response, maxRegisters)
      <==> 3 + 2 * AsWrittenRegisterCount(response, maxRegisters) <= MaxResponseSize
  {
    if !response.success || response.length < 5 then 0
    else Min(Min(response.data[2] as int / 2, maxRegisters), MaxExtractable)
  }

  /**
   * The frame built from a payload whose function code has no exception bit
   * is received whole as a success: the response holds the payload bytes.
   */
  lemma SuccessResponse(payload: seq<byte>, now: u32)
    requires 3 <= |payload| <= MaxResponseSize - 2 && !IsException(payload[1])
    ensures var r := ManagerResponse(WithCrc(payload), now);
      r.success && r.length == |payload| + 2
      && forall i :: 0 <= i < |payload| ==> r.data[i] == payload[i]
  {
    var frame := WithCrc(payload);
    ClassifyFramed(payload);
    var r := ManagerResponse(frame, now);
    assert frame[..|payload|] == payload;
    assert r.data[..|frame|] == frame;
    forall i | 0 <= i < |payload|
      ensures r.data[i] == payload[i]
    {
      assert r.data[i] == r.data[..|frame|][i];
    }
  }

  /** A 256-byte read reply whose byte count is at least 252 never completes early. */
  lemma FullReadReply(frame: seq<byte>)
    requires |frame| == MaxResponseSize
    requires frame[1] in {0x01, 0x02, 0x03, 0x04} && frame[2] >= 252
    ensures ReceivedLength(frame) == MaxResponseSize
  {
    forall k | 5 <= k <= |frame|
      ensures !FrameComplete(frame[..k])
    {
      CompleteDependsOnHeader(frame, k);
    }
    ReceivedLengthSpec(frame);
  }

  /**
   * A CRC-valid 256-byte read reply whose byte count is 255 is received in
   * full and is a success, and with room for 127 registers the as-written
   * loop reads data[256], one past the end of the buffer.
   */
  lemma ExtractOverrunReachable(payload: seq<byte>, now: u32)
    requires |payload| == MaxResponseSize - 2
    requires payload[1] == ReadHoldingRegisters && payload[2] == 0xFF
    ensures var frame := WithCrc(payload);
      var r := ManagerResponse(frame, now);
      |frame| == MaxResponseSize && ReceivedLength(frame) == MaxResponseSize
      && r.success && AsWrittenRegisterCount(r, 127) == 127
      && 4 + 2 * (AsWrittenRegisterCount(r, 127) - 1) == |r.data|
  {
    var frame := WithCrc(payload);
    assert frame[..|payload|] == payload;
    assert frame[1] == payload[1] && frame[2] == payload[2];
    FullReadReply(frame);
    SuccessResponse(payload, now);
  }

  /**
   * extractRegisters with the count capped by the buffer's end: nothing
   * before success with at least five bytes, then the registers big-endian
   * from offset 3; nothing past `count` is written.
   */
  method ExtractRegisters(response: ModbusResponse, registers: array<u16>, maxRegisters: nat)
    returns (count: nat)
    requires |response.data| == MaxResponseSize
    requires maxRegisters <= registers.Length
    modifies registers
    ensures count == RegisterCount(response, maxRegisters) && count <= maxRegisters
    ensures registers[..count] == Registers(response.data, count)
    ensures registers[count..] == old(registers[count..])
  {
    if !response.success || response.length < 5 {
      return 0;
    }
    var byteCount := response.data[2];
    count := byteCount as int / 2;
    if count > maxRegisters {
      count := maxRegisters;
    }
    if count > MaxExtractable {
      count := MaxExtractable;
    }
    var i := 0;
    while i < count
      invariant 0 <= i <= count
      invariant forall k :: 0 <= k < i ==> registers[k] == Word(response.data[3 + 2 * k], response.data[4 + 2 * k])
      invariant forall k :: i <= k < registers.Length ==> registers[k] == old(registers[k])
    {
      registers[i] := Word(response.data[3 + i * 2], response.data[4 + i * 2]);
      i := i + 1;
    }
  }

  /**
   * End to end, first half: the CRC-framed reply to "read holding registers"
   * carrying `values` is received in full, classified as a success, and
   * extraction takes as many registers as were sent and fit the caller's buffer.
   */
  lemma ReadReplyAccepted(slave: byte, values: seq<u16>, maxRegisters: nat, now: u32)
    requires 1 <= |values| <= 125
    ensures var frame := WithCrc(ReadReplyPayload(slave, values));
      ReceivedLength(frame) == |frame|
    ensures var r := ManagerResponse(WithCrc(ReadReplyPayload(slave, values)), now);
      r.success && RegisterCount(r, maxRegisters) == Min(|values|, maxRegisters)
  {
    var payload := ReadReplyPayload(slave, values);
    ReadReplyReceived(payload);
    SuccessResponse(payload, now);
    var r := ManagerResponse(WithCrc(payload), now);
    assert r.data[2] == payload[2];
    RegisterCountOfReply(r, |values|, maxRegisters);
  }

  /** End to end, second half: the registers extracted are the values sent. */
  lemma ReadReplyRegisters(slave: byte, values: seq<u16>, maxRegisters: nat, now: u32)
    requires 1 <= |values| <= 125
    ensures var r, n := ManagerResponse(WithCrc(ReadReplyPayload(slave, values)), now), Min(|values|, maxRegisters);
      |r.data| == MaxResponseSize && Registers(r.data, n) == values[..n]
  {
    var payload := ReadReplyPayload(slave, values);
    SuccessResponse(payload, now);
    var r := ManagerResponse(WithCrc(payload), now);
    RegistersFromPayload(r.data, payload, values, Min(|values|, maxRegisters));
  }

  lemma RegisterCountOfReply(r: ModbusResponse, count: nat, maxRegisters: nat)
    requires |r.data| == MaxResponseSize && r.success
    requires r.length == 5 + 2 * count <= MaxResponseSize && r.data[2] as int == 2 * count
    ensures RegisterCount(r, maxRegisters) == Min(count, maxRegisters)
  {
    assert r.data[2] as int / 2 == count;
  }

  /** The `i`-th register is the big-endian word at offset 3 + 2i. */
  lemma RegisterAt(data: seq<byte>, n: nat, i: nat)
    requires 3 + 2 * n <= |data| && i < n
    ensures Registers(data, n)[i] == Word(data[3 + 2 * i], data[4 + 2 * i])
  {
  }

  /** Decoding the register bytes of a payload gives back the values. */
  lemma RegistersFromPayload(data: seq<byte>, payload: seq<byte>, values: seq<u16>, n: nat)
    requires |payload| == 3 + 2 * |values| && payload[3..] == RegisterBytes(values)
    requires n <= |values| && |payload| <= |data|
    requires forall i :: 0 <= i < |payload| ==> data[i] == payload[i]
    ensures Registers(data, n) == values[..n]
  {
    var bytes := RegisterBytes(values);
    forall i | 0 <= i < n
      ensures Registers(data, n)[i] == values[i]
    {
      var hi, lo := data[3 + 2 * i], data[4 + 2 * i];
      assert hi == payload[3..][2 * i] == bytes[2 * i] == Hi(values[i]);
      assert lo == payload[3..][2 * i + 1] == bytes[2 * i + 1] == Lo(values[i]);
      RegisterAt(data, n, i);
      WordSplit(values[i]);
    }
  }

  // ---------------------------------------------------------------------------
  // The manager
  // ---------------------------------------------------------------------------

  class ModbusManager {
    var initialized: bool
    /** config.serial: the port given to begin, null before. */
    var serial: SerialPort?
    /** config.timeout, in milliseconds. */
    var timeout: u32
    var stats: ModbusStats

    ghost predicate Valid()
      reads this
    {
      Consistent(stats)
    }

    /** The constructor zeroes the configuration and the statistics. */
    constructor ()
      ensures Valid() && !initialized && serial == null && timeout == 0 && stats == ZeroStats
    {
      initialized := false;
      serial := null;
      timeout := 0;
      stats := ZeroStats;
    }

    /**
     * begin: a second call succeeds and changes nothing; otherwise a failure
     * to create the mutex or the request queue fails; otherwise the port is
     * recorded with the default timeout.
     */
    method Begin(port: SerialPort, mutexCreated: bool, queueCreated: bool) returns (ok: bool)
      requires Valid()
      modifies this
      ensures Valid() && stats == old(stats)
      ensures old(initialized) ==> ok && unchanged(this)
      ensures !old(initialized) ==> ok == (mutexCreated && queueCreated)
      ensures !old(initialized) && !ok ==> unchanged(this)
      ensures !old(initialized) && ok ==> initialized && serial == port && timeout == DefaultTimeoutMs
    {
      if initialized {
        return true;
      }
      if !mutexCreated {
        return false;
      }
      if !queueCreated {
        return false;
      }
      serial := port;
      timeout := DefaultTimeoutMs;
      initialized := true;
      ok := true;
    }

    /** end: the manager is no longer initialised; the configuration stays. */
    method End()
      requires Valid()
      modifies this
      ensures Valid() && !initialized
      ensures serial == old(serial) && timeout == old(timeout) && stats == old(stats)
    {
      initialized := false;
    }

    /** getTimeout. */
    function GetTimeout(): u32
      reads this
    {
      timeout
    }

    /** getStats. */
    function GetStats(): ModbusStats
      reads this
    {
      stats
    }

    /** setTimeout: getTimeout returns the new value; nothing else changes. */
    method SetTimeout(t: u32)
      requires Valid()
      modifies this
      ensures Valid() && GetTimeout() == t
      ensures initialized == old(initialized) && serial == old(serial) && stats == old(stats)
    {
      timeout := t;
    }

    /** resetStats: every counter back to zero. */
    method ResetStats()
      requires Valid()
      modifies this
      ensures Valid() && GetStats() == ZeroStats
      ensures initialized == old(initialized) && serial == old(serial) && timeout == old(timeout)
    {
      stats := ZeroStats;
    }

    /**
     * The tail of sendRequest that looks at the received bytes: no bytes is a
     * timeout, a bad trailer a CRC error, the 0x80 bit in the function code an
     * exception, anything else a success.  `buf` holds the bytes read followed
     * by the zeros the response buffer was cleared to.
     */
    static method InterpretReply(buf: array<byte>, bytesRead: nat, responseTime: u32)
      returns (response: ModbusResponse, outcome: Outcome)
      requires buf.Length == MaxResponseSize && bytesRead <= MaxResponseSize
      requires buf[..] == buf[..bytesRead] + Zeros(MaxResponseSize - bytesRead)
      ensures outcome == Classify(buf[..bytesRead])
      ensures response == ManagerResponse(buf[..bytesRead], responseTime)
    {
      ghost var frame := buf[..bytesRead];
      response := ModbusResponse(buf[..], bytesRead, false, 0, 0, 0, 0);
      if bytesRead == 0 {
        outcome := NoResponse;
      } else {
        var crcOk := CheckCrc(buf[..bytesRead]);
        if !crcOk {
          outcome := CrcMismatch;
        } else {
          assert buf[0] == frame[0] && buf[1] == frame[1] && buf[2] == frame[2];
          if IsException(buf[1]) {
            outcome := SlaveException(buf[2]);
            response := response.(exceptionCode := buf[2], slaveId := buf[0], functionCode := buf[1] % 128);
          } else {
            outcome := Completed;
            response := response.(success := true, slaveId := buf[0], functionCode := buf[1], timestamp := responseTime);
          }
        }
      }
    }

    /**
     * sendRequest: an uninitialised manager returns the empty response and
     * touches nothing.  Otherwise pending input is discarded, the request
     * goes out followed by its CRC (low byte first), the reply is read by the
     * receive loop, and the response and statistics follow the outcome.
     */
    method SendRequest(request: seq<byte>, reply: seq<byte>, requestTime: u32, responseTime: u32)
      returns (response: ModbusResponse)
      requires Valid()
      modifies this, serial
      ensures Valid()
      ensures Exchanged(this, request, reply, requestTime, responseTime, response)
    {
      if !initialized || serial == null {
        return EmptyResponse;
      }
      var port := serial;
      stats := stats.(totalRequests := Inc32(stats.totalRequests), lastRequestTime := requestTime);
      var _ := Drain(port);
      var crc := ComputeCrc(request);
      port.Write(request + [Lo(crc), Hi(crc)]);
      port.Arrive(reply);
      assert port.pending == reply;
      var buf := new byte[MaxResponseSize](_ => 0);
      var bytesRead := ReceiveFrame(port, buf, timeout);
      assert bytesRead == BytesRead(reply, old(timeout)) && port.pending == reply[bytesRead..];
      ghost var frame := reply[..bytesRead];
      assert buf[..] == frame + Zeros(MaxResponseSize - bytesRead) by {
        assert buf[..][..bytesRead] == frame;
      }
      var outcome;
      response, outcome := InterpretReply(buf, bytesRead, responseTime);
      stats := stats.(lastResponseTime := responseTime);
      match outcome {
        case NoResponse =>
          stats := stats.(timeouts := Inc32(stats.timeouts), failedRequests := Inc32(stats.failedRequests));
        case CrcMismatch =>
          stats := stats.(crcErrors := Inc32(stats.crcErrors), failedRequests := Inc32(stats.failedRequests));
        case SlaveException(_) =>
          stats := stats.(exceptions := Inc32(stats.exceptions), failedRequests := Inc32(stats.failedRequests));
        case Completed =>
          stats := stats.(successfulRequests := Inc32(stats.successfulRequests));
      }
      assert stats == Record(old(stats), Classify(frame), requestTime, responseTime);
      RecordPreservesConsistency(old(stats), Classify(frame), requestTime, responseTime);
    }

    /** readHoldingRegisters (0x03). */
    method ReadHoldingRegisters(slave: byte, startAddress: u16, quantity: u16,
                                reply: seq<byte>, requestTime: u32, responseTime: u32)
      returns (response: ModbusResponse)
      requires Valid()
      modifies this, serial
      ensures Valid()
      ensures Exchanged(this, FieldRequest(slave, ModbusFrame.ReadHoldingRegisters, startAddress, quantity),
                        reply, requestTime, responseTime, response)
    {
      if !initialized {
        return EmptyResponse;
      }
      var request := EncodeFieldRequest(slave, ModbusFrame.ReadHoldingRegisters, startAddress, quantity);
      response := SendRequest(request, reply, requestTime, responseTime);
    }

    /** readInputRegisters (0x04). */
    method ReadInputRegisters(slave: byte, startAddress: u16, quantity: u16,
                              reply: seq<byte>, requestTime: u32, responseTime: u32)
      returns (response: ModbusResponse)
      requires Valid()
      modifies this, serial
      ensures Valid()
      ensures Exchanged(this, FieldRequest(slave, ModbusFrame.ReadInputRegisters, startAddress, quantity),
                        reply, requestTime, responseTime, response)
    {
      if !initialized {
        return EmptyResponse;
      }
      var request := EncodeFieldRequest(slave, ModbusFrame.ReadInputRegisters, startAddress, quantity);
      response := SendRequest(request, reply, requestTime, responseTime);
    }

    /** readCoils (0x01). */
    method ReadCoils(slave: byte, startAddress: u16, quantity: u16,
                     reply: seq<byte>, requestTime: u32, responseTime: u32)
      returns (response: ModbusResponse)
      requires Valid()
      modifies this, serial
      ensures Valid()
      ensures Exchanged(this, FieldRequest(slave, ModbusFrame.ReadCoils, startAddress, quantity),
                        reply, requestTime, responseTime, response)
    {
      if !initialized {
        return EmptyResponse;
      }
      var request := EncodeFieldRequest(slave, ModbusFrame.ReadCoils, startAddress, quantity);
      response := SendRequest(request, reply, requestTime, responseTime);
    }

    /** writeSingleRegister (0x06). */
    method WriteSingleRegister(slave: byte, address: u16, value: u16,
                               reply: seq<byte>, requestTime: u32, responseTime: u32)
      returns (response: ModbusResponse)
      requires Valid()
      modifies this, serial
      ensures Valid()
      ensures Exchanged(this, FieldRequest(slave, ModbusFrame.WriteSingleRegister, address, value),
                        reply, requestTime, responseTime, response)
    {
      if !initialized {
        return EmptyResponse;
      }
      var request := EncodeFieldRequest(slave, ModbusFrame.WriteSingleRegister, address, value);
      response := SendRequest(request, reply, requestTime, responseTime);
    }

    /** writeMultipleRegisters (0x10), with the request buffer sized for every value. */
    method WriteMultipleRegisters(slave: byte, startAddress: u16, quantity: u16, values: seq<u16>,
                                  reply: seq<byte>, requestTime: u32, responseTime: u32)
      returns (response: ModbusResponse)
      requires |values| >= quantity
      requires Valid()
      modifies this, serial
      ensures Valid()
      ensures Exchanged(this, WriteMultipleRequest(slave, startAddress, quantity, values),
                        reply, requestTime, responseTime, response)
    {
      if !initialized {
        return EmptyResponse;
      }
      var request := EncodeWriteMultiple(slave, startAddress, quantity, values);
      response := SendRequest(request, reply, requestTime, responseTime);
    }
  }

  /**
   * The whole effect of one transaction.  Uninitialised (or without a port):
   * the empty response and no change at all.  Otherwise the port has sent
   * the framed request and holds only what the receive loop left unread, the
   * statistics record the outcome of the received frame, and the response is
   * the one that frame yields.
   */
  twostate predicate Exchanged(m: ModbusManager, request: seq<byte>, reply: seq<byte>,
                               requestTime: u32, responseTime: u32, response: ModbusResponse)
    reads m, m.serial
  {
    if !old(m.initialized) || old(m.serial) == null then
      response == EmptyResponse
      && m.initialized == old(m.initialized) && m.serial == old(m.serial)
      && m.timeout == old(m.timeout) && m.stats == old(m.stats)
      && (m.serial != null ==>
            m.serial.pending == old(m.serial.pending) && m.serial.transmitted == old(m.serial.transmitted))
    else
      var n := BytesRead(reply, old(m.timeout));
      m.serial == old(m.serial) && m.initialized && m.timeout == old(m.timeout)
      && m.serial.transmitted == old(m.serial.transmitted) + WithCrc(request)
      && m.serial.pending == reply[n..]
      && m.stats == Record(old(m.stats), Classify(reply[..n]), requestTime, responseTime)
      && response == ManagerResponse(reply[..n], responseTime)
  }
}
