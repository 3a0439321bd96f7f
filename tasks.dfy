/**
 * The acquisition pipeline of tasks.cpp: the Modbus task polls slave 1 for
 * two holding registers and queues every result, successful or not, for the
 * decoder task, which keeps the last good reading in a one-slot cache; and
 * the MQTT topic strings built from the device id.  Each loop iteration of a
 * task is one method; the FreeRTOS scheduling between them, the polling
 * period and the floating-point temperature and humidity are not modelled.
 */
module AcquisitionTasks {
  import opened Bytes
  import opened Crc16
  import opened ModbusFrame
  import opened SerialLink
  import opened ModbusRtu

  // ---------------------------------------------------------------------------
  // Records passed from the Modbus task to the decoder
  // ---------------------------------------------------------------------------

  /** RawModbusData: `data` holds the `length` bytes copied from the response. */
  datatype RawModbusData = RawModbusData(valid: bool, data: seq<byte>, length: nat, timestamp: u32)

  predicate WellFormed(rec: RawModbusData)
  {
    |rec.data| == rec.length <= MaxResponseSize
  }

  /** xQueueCreate(5, ...): the queue holds at most five records. */
  const QueueCapacity: nat := 5

  /** The poll: two holding registers from address 0 of slave 1. */
  const PollSlave: byte := 1
  const PollAddress: u16 := 0
  const PollQuantity: u16 := 2

  /** The record the Modbus task builds from a response, stamped with the time it was built. */
  function Package(response: RtuResponse, now: u32): (r: RawModbusData)
    requires response.length <= |response.data| && response.length <= MaxResponseSize
    ensures WellFormed(r) && r.valid == response.success && r.length == response.length
    ensures r.data == response.data[..response.length] && r.timestamp == now
  {
    RawModbusData(response.success, response.data[..response.length], response.length, now)
  }

  /** The response the poll gets back: the master's result, or the empty one when the port was not obtained. */
  function PollResponse(portLocked: bool, reply: seq<byte>): (r: RtuResponse)
    ensures r.length == |r.data| <= MaxResponseSize && |r.data| <= |reply| && r.data == reply[..|r.data|]
    ensures !portLocked ==> r.length == 0 && !r.success
    ensures r.success ==> VerifyCrc(r.data) && !IsException(r.data[1])
  {
    if portLocked then RtuResult(reply[..ReceivedLength(reply)]) else NoExchange
  }

  // ---------------------------------------------------------------------------
  // The decoder's cache
  // ---------------------------------------------------------------------------

  /** SensorData without the two floating-point fields. */
  datatype SensorData = SensorData(valid: bool, register0: u16, register1: u16, timestamp: u32)

  /** The values initTasks stores before starting the tasks. */
  const InitialSensorData := SensorData(false, 0, 0, 0)

  /**
   * One record through the decoder.  A valid record of at least nine bytes
   * whose byte count is at least 4 replaces the whole cache; a valid record of
   * nine bytes or more with a smaller byte count leaves it alone; any other
   * record only clears `valid`.  Without the mutex (`locked` false) nothing
   * changes.
   */
  function Decoded(s: SensorData, rec: RawModbusData, locked: bool): SensorData
    requires WellFormed(rec)
  {
    if rec.valid && rec.length >= 9 then
      if rec.data[2] >= 4 && locked then
        SensorData(true, Word(rec.data[3], rec.data[4]), Word(rec.data[5], rec.data[6]), rec.timestamp)
      else s
    else if locked then s.(valid := false)
    else s
  }

  /**
   * The three outcomes are exclusive: the cache is replaced by a reading
   * taken from the record, or only its `valid` flag is cleared, or it is left
   * as it was; and a replacement happens only for a valid record of nine or
   * more bytes with byte count 4 or more.
   */
  lemma DecodedOutcomes(s: SensorData, rec: RawModbusData, locked: bool)
    requires WellFormed(rec)
    ensures var d := Decoded(s, rec, locked);
      (d.valid && d.timestamp == rec.timestamp && d.register0 == Word(rec.data[3], rec.data[4])
        && d.register1 == Word(rec.data[5], rec.data[6])
        <== locked && rec.valid && rec.length >= 9 && rec.data[2] >= 4)
      && (d == s.(valid := false) <== locked && !(rec.valid && rec.length >= 9))
      && (d == s <== !locked || (rec.valid && rec.length >= 9 && rec.data[2] < 4))
      && (d.register0 != s.register0 || d.register1 != s.register1 || d.timestamp != s.timestamp
          ==> locked && rec.valid && rec.length >= 9 && rec.data[2] >= 4)
  {
  }

  /** Decoding the same record twice leaves the cache as decoding it once. */
  lemma DecodedIdempotent(s: SensorData, rec: RawModbusData, locked: bool)
    requires WellFormed(rec)
    ensures Decoded(Decoded(s, rec, locked), rec, locked) == Decoded(s, rec, locked)
  {
  }

  /** A CRC-framed read reply whose byte count matches is packaged whole, as a success. */
  lemma PolledReply(payload: seq<byte>, now: u32)
    requires 3 <= |payload| <= MaxResponseSize - 2
    requires payload[1] == ReadHoldingRegisters && |payload| == 3 + payload[2] as int
    ensures var rec := Package(PollResponse(true, WithCrc(payload)), now);
      rec.valid && rec.length == |payload| + 2 && rec.data[..|payload|] == payload && rec.timestamp == now
  {
    var reply := WithCrc(payload);
    ReadReplyReceived(payload);
    assert reply[..ReceivedLength(reply)] == reply;
    RtuFramedReply(payload);
  }

  /**
   * End to end: when slave 1 answers the poll with the CRC-framed reply
   * carrying two register values, the record queued and then decoded leaves
   * the cache valid, holding those two values and the poll's time stamp.
   */
  lemma PollThenDecode(v0: u16, v1: u16, now: u32, s: SensorData)
    ensures var rec := Package(PollResponse(true, WithCrc(ReadReplyPayload(PollSlave, [v0, v1]))), now);
      rec.valid && rec.length == 9 && Decoded(s, rec, true) == SensorData(true, v0, v1, now)
  {
    var payload := ReadReplyPayload(PollSlave, [v0, v1]);
    var bytes := RegisterBytes([v0, v1]);
    assert payload[1] == ReadHoldingRegisters && payload[2] == 4;
    PolledReply(payload, now);
    var rec := Package(PollResponse(true, WithCrc(payload)), now);
    assert rec.data[2] == payload[2] by { assert rec.data[..7][2] == rec.data[2]; }
    forall i | 3 <= i < 7
      ensures rec.data[i] == bytes[i - 3]
    {
      assert rec.data[..7][i] == payload[i] == payload[3..][i - 3];
    }
    RegisterBytesAt([v0, v1], 0);
    RegisterBytesAt([v0, v1], 1);
    WordSplit(v0);
    WordSplit(v1);
  }

  // ---------------------------------------------------------------------------
  // MQTT topics
  // ---------------------------------------------------------------------------

  /** Every topic buffer of MQTTTopics is char[64]. */
  const TopicBufferSize: nat := 64

  datatype MqttTopics = MqttTopics(
    telemetryTemp: string,
    telemetryCurrent: string,
    status: string,
    eventError: string,
    cmdBase: string)

  const NoTopics := MqttTopics("", "", "", "", "")

  /** snprintf into a buffer of `size` bytes keeps at most size - 1 characters and a terminator. */
  function Snprintf(s: string, size: nat): (r: string)
    requires size >= 1
    ensures |r| == Min(|s|, size - 1) && r == s[..|r|]
  {
    if |s| < size then s else s[..size - 1]
  }

  /** "devices/%s<suffix>" with the device id, as snprintf leaves it in a 64-byte buffer. */
  function Topic(deviceId: string, suffix: string): string
  {
    Snprintf("devices/" + deviceId + suffix, TopicBufferSize)
  }

  function Topics(deviceId: string): MqttTopics
  {
    MqttTopics(
      Topic(deviceId, "/telemetry/temperature"),
      Topic(deviceId, "/telemetry/current"),
      Topic(deviceId, "/status"),
      Topic(deviceId, "/event/error"),
      Topic(deviceId, "/cmd/#"))
  }

  /**
   * A device id that fits WiFiConfig.deviceId (char[32], at most 31
   * characters) is never truncated: the topic is "devices/", the id and the
   * suffix, and each part can be read back.
   */
  lemma TopicUntruncated(deviceId: string, suffix: string)
    requires |deviceId| <= 31 && |suffix| <= 22
    ensures var t := Topic(deviceId, suffix);
      t == "devices/" + deviceId + suffix && |t| < TopicBufferSize
      && t[..8] == "devices/" && t[8..8 + |deviceId|] == deviceId && t[8 + |deviceId|..] == suffix
  {
    var t := "devices/" + deviceId + suffix;
    assert |t| < TopicBufferSize;
    assert t[..8] == "devices/";
    assert t[8..8 + |deviceId|] == deviceId;
    assert t[8 + |deviceId|..] == suffix;
  }

  /** All five topics of a device id of at most 31 characters are complete. */
  lemma TopicsUntruncated(deviceId: string)
    requires |deviceId| <= 31
    ensures Topics(deviceId) == MqttTopics(
      "devices/" + deviceId + "/telemetry/temperature",
      "devices/" + deviceId + "/telemetry/current",
      "devices/" + deviceId + "/status",
      "devices/" + deviceId + "/event/error",
      "devices/" + deviceId + "/cmd/#")
  {
    TopicUntruncated(deviceId, "/telemetry/temperature");
    TopicUntruncated(deviceId, "/telemetry/current");
    TopicUntruncated(deviceId, "/status");
    TopicUntruncated(deviceId, "/event/error");
    TopicUntruncated(deviceId, "/cmd/#");
  }

  /** With an id of 55 characters or more every suffix is cut off and the five topics coincide. */
  lemma TopicsCollide(deviceId: string)
    requires |deviceId| >= 55
    ensures var t := Topics(deviceId);
      t.telemetryTemp == t.telemetryCurrent == t.status == t.eventError == t.cmdBase
      == ("devices/" + deviceId)[..TopicBufferSize - 1]
  {
    var p := "devices/" + deviceId;
    forall suffix: string
      ensures Topic(deviceId, suffix) == p[..TopicBufferSize - 1]
    {
      assert (p + suffix)[..TopicBufferSize - 1] == p[..TopicBufferSize - 1];
    }
  }

  // ---------------------------------------------------------------------------
  // The shared state of the tasks
  // ---------------------------------------------------------------------------

  /**
   * The globals of tasks.cpp: dataMutex and modbusQueue (whether they were
   * created), the queue's contents oldest first, the sensorData cache and
   * the MQTT topics.
   */
  class TaskState {
    var dataMutexCreated: bool
    var queueCreated: bool
    var queue: seq<RawModbusData>
    var sensorData: SensorData
    var topics: MqttTopics

    ghost predicate Valid()
      reads this
    {
      |queue| <= QueueCapacity && forall rec :: rec in queue ==> WellFormed(rec)
    }

    /** Static storage starts zeroed: no mutex, no queue, an invalid reading. */
    constructor ()
      ensures Valid() && !dataMutexCreated && !queueCreated && queue == []
      ensures sensorData == InitialSensorData && topics == NoTopics
    {
      dataMutexCreated := false;
      queueCreated := false;
      queue := [];
      sensorData := InitialSensorData;
      topics := NoTopics;
    }

    /**
     * initTasks up to the creation of the tasks: the mutex, then the queue,
     * stopping at the first that cannot be created; then the cache is reset.
     */
    method InitTasks(mutexOk: bool, queueOk: bool)
      requires Valid()
      modifies this
      ensures Valid() && dataMutexCreated == mutexOk && topics == old(topics)
      ensures queueCreated == ((mutexOk && queueOk) || (!mutexOk && old(queueCreated)))
      ensures mutexOk ==> queue == []
      ensures !mutexOk ==> queue == old(queue)
      ensures sensorData == if mutexOk && queueOk then InitialSensorData else old(sensorData)
    {
      dataMutexCreated := mutexOk;
      if !mutexOk {
        return;
      }
      queueCreated := queueOk;
      queue := [];
      if !queueOk {
        return;
      }
      sensorData := InitialSensorData;
    }

    /**
     * One iteration of modbusTask: read the two registers, package the
     * response whatever its outcome, and queue it if the queue exists and
     * has room; a full queue drops the record.
     */
    method PollStep(master: RtuMaster, lockOk: bool, reply: seq<byte>, now: u32) returns (sent: bool)
      requires Valid()
      modifies this, master.port
      ensures Valid()
      ensures var rec := Package(PollResponse(master.mutexCreated && lockOk, reply), now);
        sent == (queueCreated && |old(queue)| < QueueCapacity)
        && queue == if sent then old(queue) + [rec] else old(queue)
      ensures master.mutexCreated && lockOk ==>
        master.port.transmitted == old(master.port.transmitted)
          + WithCrc(FieldRequest(PollSlave, ModbusFrame.ReadHoldingRegisters, PollAddress, PollQuantity))
        && master.port.pending == reply[ReceivedLength(reply)..]
      ensures !(master.mutexCreated && lockOk) ==>
        master.port.transmitted == old(master.port.transmitted) && master.port.pending == old(master.port.pending)
      ensures sensorData == old(sensorData) && topics == old(topics)
      ensures dataMutexCreated == old(dataMutexCreated) && queueCreated == old(queueCreated)
    {
      var response := master.ReadHoldingRegisters(PollSlave, PollAddress, PollQuantity, lockOk, reply);
      var rec := Package(response, now);
      sent := false;
      if queueCreated {
        if |queue| < QueueCapacity {
          queue := queue + [rec];
          sent := true;
        }
      }
    }

    /**
     * One iteration of decoderTask: take the oldest record and apply it to
     * the cache under the mutex (`lockOk`: obtained within its wait).  An
     * empty queue blocks the task; here it returns without change.
     */
    method DecodeStep(lockOk: bool) returns (received: bool)
      requires Valid() && queueCreated
      modifies this
      ensures Valid() && received == (old(queue) != [])
      ensures received ==>
        queue == old(queue)[1..]
        && sensorData == Decoded(old(sensorData), old(queue)[0], dataMutexCreated && lockOk)
      ensures !received ==> queue == old(queue) && sensorData == old(sensorData)
      ensures topics == old(topics) && dataMutexCreated == old(dataMutexCreated) && queueCreated
    {
      if queue == [] {
        return false;
      }
      var rec := queue[0];
      assert rec in queue;
      queue := queue[1..];
      received := true;
      var locked := dataMutexCreated && lockOk;
      if rec.valid && rec.length >= 9 {
        var byteCount := rec.data[2];
        if byteCount >= 4 {
          var reg0 := Word(rec.data[3], rec.data[4]);
          var reg1 := Word(rec.data[5], rec.data[6]);
          if locked {
            sensorData := sensorData.(valid := true, register0 := reg0, register1 := reg1,
                                      timestamp := rec.timestamp);
          }
        }
      } else {
        if locked {
          sensorData := sensorData.(valid := false);
        }
      }
    }

    /** buildMQTTTopics: the five snprintf calls. */
    method BuildMqttTopics(deviceId: string)
      modifies this
      ensures topics == Topics(deviceId)
      ensures queue == old(queue) && sensorData == old(sensorData)
      ensures dataMutexCreated == old(dataMutexCreated) && queueCreated == old(queueCreated)
    {
      topics := topics.(telemetryTemp := Snprintf("devices/" + deviceId + "/telemetry/temperature", TopicBufferSize));
      topics := topics.(telemetryCurrent := Snprintf("devices/" + deviceId + "/telemetry/current", TopicBufferSize));
      topics := topics.(status := Snprintf("devices/" + deviceId + "/status", TopicBufferSize));
      topics := topics.(eventError := Snprintf("devices/" + deviceId + "/event/error", TopicBufferSize));
      topics := topics.(cmdBase := Snprintf("devices/" + deviceId + "/cmd/#", TopicBufferSize));
    }
  }
}
