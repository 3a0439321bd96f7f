# Nehuentue sensor base: Modbus RTU master, acquisition tasks and persistence, in Dafny

This project models the core of the Nehuentue sensor firmware. The firmware runs on an ESP32 that polls a Modbus RTU sensor over a serial line and publishes the readings. It also keeps settings in an I2C EEPROM and in the ESP32's NVS flash. The model covers:

- **The Modbus RTU master, in both copies.**
  - `ModbusMgr` models the `ModbusManager` class: configuration, statistics, `sendRequest`, the request encoders, `extractRegisters` and the exception descriptions.
  - `ModbusRtu` models the free functions of `modbus_rtu.cpp`: a static mutex, `modbusSendRequest` and the encoders.
  - The two copies share `ModbusFrame`: request layouts, the receive loop's end-of-frame rule, and the classification of a received frame.
  - They also share `SerialLink`: the UART as a class with a receive buffer and a transmit log, the drain loop and the receive loop.
  - They share `Crc16` as well: CRC-16/MODBUS as a specification function, and the firmware's nested loop as a method proved to compute it. The four textual copies of `calculateCRC16` are the same loop: `ModbusManager::calculateCRC`, `modbusCalculateCRC`, `EEPROMManager::calculateCRC16` and `FlashStorageManager::calculateCRC16`. `Crc16.ComputeCrc` models all four.
- **The acquisition tasks** (`AcquisitionTasks`):
  - the poll of slave 1;
  - the raw record put on the five-slot queue;
  - the decoder that updates the shared `SensorData` cache;
  - `initTasks`;
  - the MQTT topic strings built with `snprintf` into 64-byte buffers.
- **EEPROM persistence** (`EepromBus` and `Eeprom`):
  - The chip is a 65536-byte memory behind an I2C bus that may be contended (the mutex is not obtained). It acknowledges a limited number of command links, after which every transaction fails.
  - `writeRaw` splits a write into page writes that never cross a 32-byte page. A page write that would cross a page wraps inside it, as a 24LCxx does.
  - Every operation of `EEPROMManager` is a specification function on a `Device` value. The class's methods are proved to change the bus exactly as that function says.
- **Flash persistence** (`FlashStorage`):
  - the `Preferences` namespace is a map from keys to typed values;
  - `save<T>`/`load<T>` with the optional 12-byte header (CRC, version, size, time stamp);
  - the typed save and load functions;
  - `exists`, `remove`, `clear`;
  - the statistics.

Time (`millis()`), whether a mutex is obtained within its timeout, and whether a driver call succeeds are parameters of the operations. Counters are `uint32_t` and wrap explicitly.

## Model

| member | source | states |
|---|---|---|
| Bytes.Le16RoundTrip | Nehuentue_Sensor_Base/include/eeprom_manager.h:97-111 | The two little-endian bytes a `uint16_t` is stored as decode back to the same value. |
| Bytes.Le32RoundTrip | Nehuentue_Sensor_Base/lib/FlashStorageManager/FlashStorageManager.h:80-85 | The four little-endian bytes of a `uint32_t` header field decode back to the same value. |
| Bytes.WordSplit | Nehuentue_Sensor_Base/lib/ModbusManager/ModbusManager.cpp:119-122 | Splitting a 16-bit field into high and low byte and joining them again gives the field back. |
| Bytes.SplitWord | Nehuentue_Sensor_Base/lib/ModbusManager/ModbusManager.cpp:246 | A register assembled as `(hi << 8) \| lo` splits back into the same two bytes. |
| Crc16.ComputeCrc | Nehuentue_Sensor_Base/lib/ModbusManager/ModbusManager.cpp:211-224 | The nested shift-and-xor loop returns CRC-16/MODBUS (seed 0xFFFF, reflected polynomial 0xA001) of the whole buffer. |
| Crc16.WithCrc | Nehuentue_Sensor_Base/lib/ModbusManager/ModbusManager.cpp:370-374 | The frame sent is the request followed by two CRC bytes; the request is its unchanged prefix. |
| Crc16.CheckCrc | Nehuentue_Sensor_Base/lib/ModbusManager/ModbusManager.cpp:226-231 | verifyCRC returns true exactly when the frame has at least three bytes and its last two are the low-first CRC of the rest. |
| Crc16.VerifyCrcCharacterization | Nehuentue_Sensor_Base/src/modbus_rtu.cpp:26-31 | A frame verifies if and only if it is a non-empty payload with its CRC appended. |
| Crc16.VerifyWithCrc | Nehuentue_Sensor_Base/src/modbus_rtu.cpp:82-86 | Appending the CRC to any non-empty request yields a frame that verifies. |
| Crc16.CrcSnoc | Nehuentue_Sensor_Base/src/eeprom_manager.cpp:240-253 | Each outer-loop iteration absorbs one more byte into the running CRC. |
| Crc16.CheckValue | Nehuentue_Sensor_Base/lib/FlashStorageManager/FlashStorageManager.cpp:494-509 | The CRC of the empty buffer is the seed, and the CRC of "123456789" is the published check value 0x4B37. |
| Crc16.ReadRequestVector | Nehuentue_Sensor_Base/src/tasks.cpp:38 | The poll request "slave 1, read 2 holding registers at 0" goes out with CRC bytes C4 0B. |
| ModbusFrame.FieldRequestDecodes | Nehuentue_Sensor_Base/lib/ModbusManager/ModbusManager.cpp:116-122 | The six-byte request holds the slave, the function code, and both 16-bit fields high byte first, each recoverable. |
| ModbusFrame.EncodeFieldRequest | Nehuentue_Sensor_Base/src/modbus_rtu.cpp:195-244 | The encoders of functions 0x01, 0x03, 0x04 and 0x06 fill the six-byte request field by field. |
| ModbusFrame.RegisterBytes | Nehuentue_Sensor_Base/lib/ModbusManager/ModbusManager.cpp:199-202 | Register values become two bytes each, high byte first, in order. |
| ModbusFrame.RegisterBytesAt | Nehuentue_Sensor_Base/src/modbus_rtu.cpp:259-262 | Byte 2i of the value bytes is the high byte of value i and byte 2i+1 its low byte. |
| ModbusFrame.WriteMultipleRequestDecodes | Nehuentue_Sensor_Base/lib/ModbusManager/ModbusManager.cpp:188-204 | The corrected 0x10 request carries slave, 0x10, address, quantity, the byte count, and every value recoverable from its two bytes. |
| ModbusFrame.EncodeWriteMultiple | Nehuentue_Sensor_Base/src/modbus_rtu.cpp:247-265 | The loop that fills the 0x10 request produces exactly that request, with the buffer sized for every value. |
| ModbusFrame.WriteMultipleOverrun | Nehuentue_Sensor_Base/lib/ModbusManager/ModbusManager.cpp:188-202 | The as-written buffer `7 + (uint8_t)(2q)` is too short for the values exactly when q is 128 or more; below that it is exact. |
| ModbusFrame.StopAt | Nehuentue_Sensor_Base/lib/ModbusManager/ModbusManager.cpp:384-419 | The receive loop stops between the bytes already read and the read limit. |
| ModbusFrame.ReceivedLength | Nehuentue_Sensor_Base/src/modbus_rtu.cpp:106-149 | The number of bytes received never exceeds the bytes available or the 256-byte buffer. |
| ModbusFrame.StopAtSpec | Nehuentue_Sensor_Base/lib/ModbusManager/ModbusManager.cpp:391-416 | From any point, the loop stops at the first complete prefix, or at the limit when there is none. |
| ModbusFrame.ReceivedLengthSpec | Nehuentue_Sensor_Base/lib/ModbusManager/ModbusManager.cpp:384-419 | The bytes received form a complete frame, or the input ran out or filled the buffer; no shorter prefix was complete. |
| ModbusFrame.ReceivedLengthIsFirst | Nehuentue_Sensor_Base/src/modbus_rtu.cpp:119-148 | The first complete prefix within the limit is exactly where reception stops. |
| ModbusFrame.CompleteDependsOnHeader | Nehuentue_Sensor_Base/lib/ModbusManager/ModbusManager.cpp:391-416 | Whether a prefix is complete depends only on its length and on bytes 1 and 2. |
| ModbusFrame.ExceptionReplyLength | Nehuentue_Sensor_Base/lib/ModbusManager/ModbusManager.cpp:395-397 | A reply with the exception bit set is taken as complete after exactly five bytes. |
| ModbusFrame.ReadReplyLength | Nehuentue_Sensor_Base/lib/ModbusManager/ModbusManager.cpp:399-411 | A reply to functions 1 to 4 stops after exactly 5 + byteCount bytes when that many arrive. |
| ModbusFrame.EchoReplyLength | Nehuentue_Sensor_Base/src/modbus_rtu.cpp:141-147 | A reply to 0x06 or 0x10 stops after exactly eight bytes. |
| ModbusFrame.OtherReplyLength | Nehuentue_Sensor_Base/lib/ModbusManager/ModbusManager.cpp:384-419 | Any other function code is read until the line goes idle or 256 bytes are in. |
| ModbusFrame.ReadReplyReceived | Nehuentue_Sensor_Base/src/modbus_rtu.cpp:127-132 | A CRC-framed read reply whose byte count matches its length is received whole. |
| ModbusFrame.ClassifyFramed | Nehuentue_Sensor_Base/lib/ModbusManager/ModbusManager.cpp:425-456 | A frame with a correct CRC is an exception carrying its code when the exception bit is set, and a success otherwise. |
| ModbusFrame.ClassifyVerified | Nehuentue_Sensor_Base/src/modbus_rtu.cpp:172-191 | Every CRC-valid frame is classified by its function code's exception bit alone. |
| ModbusFrame.ClassifyMismatch | Nehuentue_Sensor_Base/lib/ModbusManager/ModbusManager.cpp:432-438 | A CRC error is reported exactly for a non-empty frame that does not verify; exceptions and successes imply a valid CRC. |
| SerialLink.SerialPort.constructor | Nehuentue_Sensor_Base/lib/ModbusManager/ModbusManager.cpp:68 | A fresh port has nothing received and nothing sent. |
| SerialLink.SerialPort.Available | Nehuentue_Sensor_Base/lib/ModbusManager/ModbusManager.cpp:365 | available() is the number of received bytes not yet read. |
| SerialLink.SerialPort.Read | Nehuentue_Sensor_Base/lib/ModbusManager/ModbusManager.cpp:366 | read() returns the oldest pending byte and removes it; nothing is sent. |
| SerialLink.SerialPort.Write | Nehuentue_Sensor_Base/lib/ModbusManager/ModbusManager.cpp:377-378 | write() and flush() append the bytes to what has gone out; the receive side is untouched. |
| SerialLink.SerialPort.Arrive | Nehuentue_Sensor_Base/src/modbus_rtu.cpp:107 | Bytes sent by the slave are appended to the receive buffer. |
| SerialLink.Drain | Nehuentue_Sensor_Base/src/modbus_rtu.cpp:72-76 | The drain loop discards every pending byte, counts them, and sends nothing. |
| SerialLink.BytesRead | Nehuentue_Sensor_Base/lib/ModbusManager/ModbusManager.cpp:384 | With a zero timeout nothing is read; otherwise at most the read limit. |
| SerialLink.ReceiveFrame | Nehuentue_Sensor_Base/lib/ModbusManager/ModbusManager.cpp:381-421 | The receive loop copies exactly the received prefix into the buffer, leaves the rest of the buffer and the unread input alone, and sends nothing. |
| ModbusMgr.Zeros | Nehuentue_Sensor_Base/lib/ModbusManager/ModbusManager.cpp:352 | The memset response buffer is 256 zero bytes. |
| ModbusMgr.ManagerResponse | Nehuentue_Sensor_Base/lib/ModbusManager/ModbusManager.cpp:421-455 | The response keeps the received bytes and their count. It is a success exactly for a CRC-valid frame without the exception bit, and it sets slave, function code and exception code only where the code does. |
| ModbusMgr.RecordPreservesConsistency | Nehuentue_Sensor_Base/lib/ModbusManager/ModbusManager.cpp:361-456 | Every transaction keeps total = successful + failed and failed = timeouts + CRC errors + exceptions, modulo 2^32. |
| ModbusMgr.IncMod | Nehuentue_Sensor_Base/lib/ModbusManager/ModbusManager.h:70-75 | A wrapping `uint32_t` increment of a count taken modulo 2^32 is the next count modulo 2^32. |
| ModbusMgr.ReplayCounts | Nehuentue_Sensor_Base/lib/ModbusManager/ModbusManager.cpp:291-295 | After resetStats, each counter is the number of transactions of its kind modulo 2^32, and the counters stay consistent. |
| ModbusMgr.ExceptionDescription | Nehuentue_Sensor_Base/lib/ModbusManager/ModbusManager.cpp:252-265 | The unknown-exception text is returned exactly for codes other than 1-6, 8, 0x0A and 0x0B. |
| ModbusMgr.ExceptionDescriptionsDistinct | Nehuentue_Sensor_Base/lib/ModbusManager/ModbusManager.cpp:253-262 | Distinct known codes have distinct descriptions. |
| ModbusMgr.Registers | Nehuentue_Sensor_Base/lib/ModbusManager/ModbusManager.cpp:245-247 | Decoding `count` registers from offset 3 yields `count` values. |
| ModbusMgr.RegisterCount | Nehuentue_Sensor_Base/lib/ModbusManager/ModbusManager.cpp:233-243 | The corrected count never exceeds the as-written count and keeps every register index inside the 256-byte buffer; it equals the as-written min(byteCount / 2, maxRegisters) exactly when that count stays inside the buffer. |
| ModbusMgr.SuccessResponse | Nehuentue_Sensor_Base/lib/ModbusManager/ModbusManager.cpp:451-456 | A CRC-framed reply without the exception bit is a success holding the payload bytes. |
| ModbusMgr.FullReadReply | Nehuentue_Sensor_Base/lib/ModbusManager/ModbusManager.cpp:399-403 | A 256-byte read reply with byte count 252 or more never completes early; all 256 bytes are read. |
| ModbusMgr.ExtractOverrunReachable | Nehuentue_Sensor_Base/lib/ModbusManager/ModbusManager.cpp:233-250 | A CRC-valid 256-byte reply with byte count 255 is a success, and with room for 127 registers the as-written loop reads data[256]. |
| ModbusMgr.ExtractRegisters | Nehuentue_Sensor_Base/lib/ModbusManager/ModbusManager.cpp:233-250 | Extraction returns nothing for a failed or short response, otherwise the corrected count (at most maxRegisters, and the source's count whenever the source stays inside the buffer); it stores those registers big-endian from offset 3 and leaves the rest of the caller's array alone. |
| ModbusMgr.ReadReplyAccepted | Nehuentue_Sensor_Base/lib/ModbusManager/ModbusManager.cpp:384-456 | The CRC-framed reply carrying n values is received whole, is a success, and yields min(n, maxRegisters) registers. |
| ModbusMgr.ReadReplyRegisters | Nehuentue_Sensor_Base/lib/ModbusManager/ModbusManager.cpp:245-247 | The registers extracted from that reply are the values sent. |
| ModbusMgr.RegisterCountOfReply | Nehuentue_Sensor_Base/lib/ModbusManager/ModbusManager.cpp:238-243 | For a success whose byte count matches its length, the count is min(registers sent, maxRegisters). |
| ModbusMgr.RegisterAt | Nehuentue_Sensor_Base/lib/ModbusManager/ModbusManager.cpp:246 | Register i is the big-endian word at offset 3 + 2i. |
| ModbusMgr.RegistersFromPayload | Nehuentue_Sensor_Base/lib/ModbusManager/ModbusManager.cpp:245-247 | Decoding the value bytes of a received payload gives back the encoded values. |
| ModbusMgr.ModbusManager.constructor | Nehuentue_Sensor_Base/lib/ModbusManager/ModbusManager.cpp:17-26 | Not initialised, no port, zero timeout, zeroed statistics. |
| ModbusMgr.ModbusManager.Begin | Nehuentue_Sensor_Base/lib/ModbusManager/ModbusManager.cpp:36-80 | Returns true at once when already initialised. Otherwise it succeeds exactly when the mutex and the queue are created, and then holds the port and the 1000 ms timeout. A failure changes nothing. |
| ModbusMgr.ModbusManager.End | Nehuentue_Sensor_Base/lib/ModbusManager/ModbusManager.cpp:82-103 | The manager is no longer initialised; configuration and statistics stay. |
| ModbusMgr.ModbusManager.SetTimeout | Nehuentue_Sensor_Base/lib/ModbusManager/ModbusManager.cpp:281-285 | getTimeout returns the new value; nothing else changes. |
| ModbusMgr.ModbusManager.ResetStats | Nehuentue_Sensor_Base/lib/ModbusManager/ModbusManager.cpp:291-295 | Every counter is zero; the configuration is unchanged. |
| ModbusMgr.ModbusManager.InterpretReply | Nehuentue_Sensor_Base/lib/ModbusManager/ModbusManager.cpp:421-456 | The received buffer is classified and turned into the response the specification function gives. |
| ModbusMgr.ModbusManager.SendRequest | Nehuentue_Sensor_Base/lib/ModbusManager/ModbusManager.cpp:350-466 | Uninitialised: the empty response and no traffic. Otherwise the pending input is drained, the request goes out with its CRC, the reply is received, and the response and statistics follow the outcome. |
| ModbusMgr.ModbusManager.ReadHoldingRegisters | Nehuentue_Sensor_Base/lib/ModbusManager/ModbusManager.cpp:109-125 | The transaction of the 0x03 request for the given slave, address and quantity. |
| ModbusMgr.ModbusManager.ReadInputRegisters | Nehuentue_Sensor_Base/lib/ModbusManager/ModbusManager.cpp:127-143 | The transaction of the 0x04 request. |
| ModbusMgr.ModbusManager.ReadCoils | Nehuentue_Sensor_Base/lib/ModbusManager/ModbusManager.cpp:145-161 | The transaction of the 0x01 request. |
| ModbusMgr.ModbusManager.WriteSingleRegister | Nehuentue_Sensor_Base/lib/ModbusManager/ModbusManager.cpp:163-179 | The transaction of the 0x06 request carrying the address and the value. |
| ModbusMgr.ModbusManager.WriteMultipleRegisters | Nehuentue_Sensor_Base/lib/ModbusManager/ModbusManager.cpp:181-205 | The transaction of the 0x10 request carrying every value, with the buffer sized correctly. |
| ModbusRtu.RtuResult | Nehuentue_Sensor_Base/src/modbus_rtu.cpp:151-191 | The response keeps the received bytes. It is a success only for a CRC-valid frame without the exception bit, and carries the exception code only for a CRC-valid exception frame. |
| ModbusRtu.RtuFramedReply | Nehuentue_Sensor_Base/src/modbus_rtu.cpp:172-191 | A CRC-framed slave reply comes back whole, as a success or as its exception. |
| ModbusRtu.RtuMaster.constructor | Nehuentue_Sensor_Base/src/modbus_rtu.cpp:7 | The serial mutex starts absent. |
| ModbusRtu.RtuMaster.Init | Nehuentue_Sensor_Base/src/modbus_rtu.cpp:34-47 | The mutex is created only if it does not exist yet. |
| ModbusRtu.RtuMaster.SendRequest | Nehuentue_Sensor_Base/src/modbus_rtu.cpp:50-192 | Without the mutex, or when it is not obtained, nothing is sent. Otherwise the drain, the request with its CRC, and the receive loop give the RtuResult of the received bytes. |
| ModbusRtu.RtuMaster.ReadHoldingRegisters | Nehuentue_Sensor_Base/src/modbus_rtu.cpp:195-205 | Sends the 0x03 request with its CRC and returns the result of the received prefix. The port keeps the unread tail of the reply; with no exchange neither side of the port changes. |
| ModbusRtu.RtuMaster.ReadInputRegisters | Nehuentue_Sensor_Base/src/modbus_rtu.cpp:208-218 | Sends the 0x04 request with its CRC and returns the result of the received prefix. The port keeps the unread tail of the reply; with no exchange neither side of the port changes. |
| ModbusRtu.RtuMaster.ReadCoils | Nehuentue_Sensor_Base/src/modbus_rtu.cpp:221-231 | Sends the 0x01 request with its CRC and returns the result of the received prefix. The port keeps the unread tail of the reply; with no exchange neither side of the port changes. |
| ModbusRtu.RtuMaster.WriteSingleRegister | Nehuentue_Sensor_Base/src/modbus_rtu.cpp:234-244 | Sends the 0x06 request with its CRC and returns the result of the received prefix. The port keeps the unread tail of the reply; with no exchange neither side of the port changes. |
| ModbusRtu.RtuMaster.WriteMultipleRegisters | Nehuentue_Sensor_Base/src/modbus_rtu.cpp:247-265 | Sends the correctly sized 0x10 request with its CRC and returns the result of the received prefix. The port keeps the unread tail of the reply; with no exchange neither side of the port changes. |
| ModbusRtu.DiagnosticOverrun | Nehuentue_Sensor_Base/src/modbus_rtu.cpp:172-177 | One stray byte is a CRC error, and the diagnostic then asks for the CRC of 2^32 - 1 bytes. |
| ModbusRtu.DiagnosticSpan | Nehuentue_Sensor_Base/src/modbus_rtu.cpp:174-175 | The corrected diagnostic has a span exactly for frames of three or more bytes, two less than the frame, agreeing with the as-written span there. |
| AcquisitionTasks.Package | Nehuentue_Sensor_Base/src/tasks.cpp:41-45 | The queued record copies the response's validity, length and bytes, stamped with the current time. |
| AcquisitionTasks.PollResponse | Nehuentue_Sensor_Base/src/tasks.cpp:38 | The poll's response is a prefix of the slave's reply of at most 256 bytes; without the port it is empty and failed; a success is a CRC-valid frame without the exception bit. |
| AcquisitionTasks.DecodedOutcomes | Nehuentue_Sensor_Base/src/tasks.cpp:74-117 | The cache is replaced by the two big-endian registers and the record's time stamp, or only marked invalid, or left alone; the readings change only for a valid record of nine or more bytes with byte count at least 4. |
| AcquisitionTasks.DecodedIdempotent | Nehuentue_Sensor_Base/src/tasks.cpp:94-116 | Decoding the same record twice leaves the cache as decoding it once. |
| AcquisitionTasks.PolledReply | Nehuentue_Sensor_Base/src/tasks.cpp:38-45 | A CRC-framed read reply with a matching byte count is queued whole, as valid. |
| AcquisitionTasks.PollThenDecode | Nehuentue_Sensor_Base/src/tasks.cpp:28-120 | When slave 1 answers the poll with two values, the cache ends valid, holding those values and the poll's time. |
| AcquisitionTasks.Snprintf | Nehuentue_Sensor_Base/src/tasks.cpp:126-139 | snprintf into n bytes keeps the first min(length, n - 1) characters. |
| AcquisitionTasks.TopicUntruncated | Nehuentue_Sensor_Base/src/tasks.cpp:125-139 | For a device id of at most 31 characters, each topic is "devices/", the id and the suffix, under 64 characters. |
| AcquisitionTasks.TopicsUntruncated | Nehuentue_Sensor_Base/include/tasks.h:30-35 | All five topics of such a device id are complete. |
| AcquisitionTasks.TopicsCollide | Nehuentue_Sensor_Base/src/tasks.cpp:125-139 | With an id of 55 characters or more every suffix is cut off and the five topics coincide. |
| AcquisitionTasks.TaskState.constructor | Nehuentue_Sensor_Base/src/tasks.cpp:7-14 | Static storage starts with no mutex, no queue, an invalid reading and empty topics. |
| AcquisitionTasks.TaskState.InitTasks | Nehuentue_Sensor_Base/src/tasks.cpp:432-467 | The data mutex and queue are created in order. A failure stops before the cache is reset, and on success the queue is empty and the cache zeroed. |
| AcquisitionTasks.TaskState.PollStep | Nehuentue_Sensor_Base/src/tasks.cpp:34-58 | One poll: the record is appended when a queue exists with a free slot among its five, and dropped otherwise. When the port is obtained, exactly the request to read two holding registers at address 0 of slave 1 goes out with its CRC and the unread tail of the reply stays pending; otherwise nothing is sent. The cache is untouched. |
| AcquisitionTasks.TaskState.DecodeStep | Nehuentue_Sensor_Base/src/tasks.cpp:69-119 | One decoder turn takes the oldest queued record, when there is one, and updates the cache as the decoder does. |
| AcquisitionTasks.TaskState.BuildMqttTopics | Nehuentue_Sensor_Base/src/tasks.cpp:125-147 | The five topics become the snprintf results for the device id; nothing else changes. |
| EepromBus.Splice | Nehuentue_Sensor_Base/src/eeprom_manager.cpp:143-190 | A store keeps the memory's size. |
| EepromBus.SpliceRead | Nehuentue_Sensor_Base/src/eeprom_manager.cpp:193-237 | What was stored at a range is what that range reads back. |
| EepromBus.SpliceReadElsewhere | Nehuentue_Sensor_Base/src/eeprom_manager.cpp:193-237 | A range the store did not touch reads its old contents. |
| EepromBus.SpliceAppend | Nehuentue_Sensor_Base/src/eeprom_manager.cpp:157-184 | Two adjacent stores are one store of the concatenation. |
| EepromBus.SpliceEmpty | Nehuentue_Sensor_Base/src/eeprom_manager.cpp:143-190 | Storing nothing changes nothing. |
| EepromBus.PageWrite | Nehuentue_Sensor_Base/include/eeprom_manager.h:20 | A page write keeps the memory's size. |
| EepromBus.PageWriteInPage | Nehuentue_Sensor_Base/src/eeprom_manager.cpp:157-184 | A page write that stays inside its 32-byte page stores the bytes where they were meant to go. |
| EepromBus.PageRemaining | Nehuentue_Sensor_Base/src/eeprom_manager.cpp:158-160 | The bytes left in a page are between 1 and 32 and end exactly at the page boundary. |
| EepromBus.WriteChunks | Nehuentue_Sensor_Base/src/eeprom_manager.cpp:157-184 | The page loop keeps the memory's size. |
| EepromBus.WriteChunksStep | Nehuentue_Sensor_Base/src/eeprom_manager.cpp:157-184 | One turn of the loop is an acknowledged page write of min(page room, bytes left), followed by the rest of the loop. |
| EepromBus.Written | Nehuentue_Sensor_Base/src/eeprom_manager.cpp:157-184 | The bytes stored before a refused page write never exceed the length. |
| EepromBus.WrittenAll | Nehuentue_Sensor_Base/src/eeprom_manager.cpp:157-184 | Every byte is stored if and only if the chip acknowledges every page write. |
| EepromBus.WrittenOnBoundary | Nehuentue_Sensor_Base/src/eeprom_manager.cpp:157-184 | A write cut short stores nothing, or a prefix that ends exactly on a page boundary. |
| EepromBus.WriteChunksStores | Nehuentue_Sensor_Base/src/eeprom_manager.cpp:157-184 | The loop succeeds iff all page writes are acknowledged, uses one acknowledgement per page write, and stores exactly the prefix it got through. |
| EepromBus.I2cBus.constructor | Nehuentue_Sensor_Base/src/eeprom_manager.cpp:10-18 | The bus holds the given memory, contention and acknowledgement budget. |
| EepromBus.I2cBus.TakeMutex | Nehuentue_Sensor_Base/src/eeprom_manager.cpp:148-151 | The mutex is obtained exactly when no other task holds it. |
| EepromBus.I2cBus.Transaction | Nehuentue_Sensor_Base/src/eeprom_manager.cpp:204-217 | A command link succeeds while the chip acknowledges, using one acknowledgement; memory is unchanged. |
| EepromBus.I2cBus.WritePage | Nehuentue_Sensor_Base/src/eeprom_manager.cpp:162-180 | An acknowledged page write stores the bytes as a page write; a refused one changes nothing. |
| EepromBus.I2cBus.ReadSequential | Nehuentue_Sensor_Base/src/eeprom_manager.cpp:219-231 | An acknowledged sequential read returns the addressed cells; memory is unchanged. |
| EepromBus.RawWrite | Nehuentue_Sensor_Base/src/eeprom_manager.cpp:143-190 | A raw write changes only memory and acknowledgements, and succeeds only for a range within the configured size. |
| EepromBus.RawWriteStores | Nehuentue_Sensor_Base/src/eeprom_manager.cpp:143-190 | Success iff initialised, in range, mutex taken and every page write acknowledged. On success the range holds the data and no other cell changed; on failure only a prefix of the data was stored. |
| EepromBus.RawRead | Nehuentue_Sensor_Base/src/eeprom_manager.cpp:193-237 | A raw read changes nothing but the acknowledgement budget; on success it returns `length` bytes of a range within the configured size, and on failure none. |
| EepromBus.RawReadAfterWrite | Nehuentue_Sensor_Base/src/eeprom_manager.cpp:143-237 | A successful raw write is read back unchanged when the chip acknowledges the read. |
| Eeprom.WriteBytesOp | Nehuentue_Sensor_Base/src/eeprom_manager.cpp:264-268 | writeBytes reports a null pointer exactly for missing data, and succeeds only in range; configuration is never changed. |
| Eeprom.ReadBytesOp | Nehuentue_Sensor_Base/src/eeprom_manager.cpp:276-280 | readBytes reports a null pointer exactly for a missing buffer, returns `length` bytes on success and none otherwise. |
| Eeprom.SaveOp | Nehuentue_Sensor_Base/include/eeprom_manager.h:97-102 | save reports ADDRESS_OUT_OF_RANGE exactly when the record does not fit, and then leaves the device alone. |
| Eeprom.LoadOp | Nehuentue_Sensor_Base/include/eeprom_manager.h:106-111 | load reports ADDRESS_OUT_OF_RANGE exactly when the record does not fit, and returns the record's bytes only on success. |
| Eeprom.SaveWithCrcOp | Nehuentue_Sensor_Base/include/eeprom_manager.h:115-127 | saveWithCRC refuses exactly the records whose CRC does not fit after them, and then leaves the chip untouched; otherwise it reports only success or a failed write. |
| Eeprom.LoadWithCrcOp | Nehuentue_Sensor_Base/include/eeprom_manager.h:131-153 | loadWithCRC refuses exactly the records whose CRC does not fit after them, returning nothing and leaving the chip untouched; success and a CRC mismatch both yield a full record's bytes; no other error is reported. |
| Eeprom.SaveLoadRoundTrip | Nehuentue_Sensor_Base/include/eeprom_manager.h:97-111 | A record saved without error is loaded back unchanged. |
| Eeprom.SaveStores | Nehuentue_Sensor_Base/include/eeprom_manager.h:97-102 | A successful save stores the record in its range and changes no other cell. |
| Eeprom.LoadReads | Nehuentue_Sensor_Base/include/eeprom_manager.h:106-111 | When every check passes and the chip answers, load returns the cells of the range and changes nothing else. |
| Eeprom.SaveWithCrcRoundTrip | Nehuentue_Sensor_Base/include/eeprom_manager.h:115-153 | A record saved with its CRC is loaded back unchanged and its CRC matches. |
| Eeprom.LoadWithCrcChecks | Nehuentue_Sensor_Base/include/eeprom_manager.h:131-153 | The record is copied to the caller before its CRC is checked. CRC_FAILED is reported exactly when the two stored bytes are not the record's CRC, and OK otherwise. |
| Eeprom.CString | Nehuentue_Sensor_Base/src/eeprom_manager.cpp:311-312 | A C string is the longest NUL-free prefix of its buffer. |
| Eeprom.CStringTerminated | Nehuentue_Sensor_Base/src/eeprom_manager.cpp:311-312 | A terminator after the characters does not change the string they spell. |
| Eeprom.CStringOfPlain | Nehuentue_Sensor_Base/src/eeprom_manager.cpp:312 | A NUL-free byte sequence is its own C string. |
| Eeprom.StoredLength | Nehuentue_Sensor_Base/src/eeprom_manager.cpp:286-296 | The length prefix saveString stores is the String's length capped at maxLength. |
| Eeprom.SaveStringOp | Nehuentue_Sensor_Base/src/eeprom_manager.cpp:286-296 | saveString keeps the configuration; it refuses exactly the addresses whose length prefix does not fit, and on success the prefix and the (truncated) text fit inside the chip. |
| Eeprom.LoadStringOp | Nehuentue_Sensor_Base/src/eeprom_manager.cpp:298-314 | loadString yields a String exactly on success, and never one longer than maxLength; it refuses exactly the addresses whose length prefix does not fit, and reports only read failures or an invalid length otherwise. |
| Eeprom.StringRoundTrip | Nehuentue_Sensor_Base/src/eeprom_manager.cpp:286-314 | A String saved without error, the empty String included, is loaded back as the part saveString stored, when that part has no NUL. |
| Eeprom.LoadStringTooLong | Nehuentue_Sensor_Base/src/eeprom_manager.cpp:304 | A stored length beyond maxLength is refused with INVALID_SIZE, without reading the characters. |
| Eeprom.CStringLength | Nehuentue_Sensor_Base/src/eeprom_manager.cpp:319-320 | The length saveCString stores is min(strlen mod 2^16, maxLength - 1), and 65535 when maxLength is 0. |
| Eeprom.SaveCStringOp | Nehuentue_Sensor_Base/src/eeprom_manager.cpp:316-332 | saveCString reports a null pointer exactly for a missing string and an out-of-range address exactly when the length prefix does not fit; on success the prefix, text and NUL fit inside the chip. |
| Eeprom.LoadCStringOp | Nehuentue_Sensor_Base/src/eeprom_manager.cpp:334-350 | loadCString reports a null pointer exactly for a missing buffer; on success the buffer holds at most maxLength bytes ending in NUL; an out-of-range address is reported exactly when the length prefix does not fit. |
| Eeprom.CStringRoundTrip | Nehuentue_Sensor_Base/src/eeprom_manager.cpp:316-350 | A C string saved without error with a positive maxLength is loaded back as its first min(strlen, maxLength - 1) characters and a NUL. |
| Eeprom.LoadStoredCString | Nehuentue_Sensor_Base/src/eeprom_manager.cpp:334-350 | A length prefix below maxLength and its characters load as those characters and a NUL. |
| Eeprom.SaveCStringStores | Nehuentue_Sensor_Base/src/eeprom_manager.cpp:316-332 | A successful saveCString leaves the length prefix and then the characters at the address. |
| Eeprom.EmptyStringReadOverrun | Nehuentue_Sensor_Base/src/eeprom_manager.cpp:224-227 | An empty String stores length 0, and the as-written read then stores its byte at index 2^32 - 1, one before the buffer. Any positive length uses the buffer's last index. |
| Eeprom.Repeat | Nehuentue_Sensor_Base/src/eeprom_manager.cpp:378-379 | The fill buffer is n copies of the value. |
| Eeprom.FillLoop | Nehuentue_Sensor_Base/src/eeprom_manager.cpp:384-394 | The fill loop ends OK or WRITE_FAILED and keeps the configuration. |
| Eeprom.FillOp | Nehuentue_Sensor_Base/src/eeprom_manager.cpp:373-397 | fill keeps the configuration; it refuses exactly the ranges that run past the chip and then writes nothing; otherwise it reports only success or a failed write. |
| Eeprom.FillLoopDone | Nehuentue_Sensor_Base/src/eeprom_manager.cpp:384-394 | A successful fill leaves its whole range holding the value. |
| Eeprom.FillLoopPartial | Nehuentue_Sensor_Base/src/eeprom_manager.cpp:384-394 | Whatever its outcome, a fill changes only a leading part of its range, and only to the value. |
| Eeprom.EepromManager.State | Nehuentue_Sensor_Base/src/eeprom_manager.cpp:10-18 | The device state is the manager's flags and size with the bus's memory and acknowledgements. |
| Eeprom.EepromManager.constructor | Nehuentue_Sensor_Base/src/eeprom_manager.cpp:10-18 | Not initialised, no mutex, the default size 16384. |
| Eeprom.EepromManager.Begin | Nehuentue_Sensor_Base/src/eeprom_manager.cpp:25-96 | The size is taken. The mutex is created only if absent, and begin succeeds exactly when a mutex exists and the driver installs. |
| Eeprom.EepromManager.End | Nehuentue_Sensor_Base/src/eeprom_manager.cpp:99-110 | Not initialised and no mutex; the size stays. |
| Eeprom.EepromManager.FreeSpace | Nehuentue_Sensor_Base/src/eeprom_manager.cpp:403-406 | The free space from an address is what remains up to the size, and 0 past it. |
| Eeprom.EepromManager.WriteRaw | Nehuentue_Sensor_Base/src/eeprom_manager.cpp:143-190 | The result and new device are those of RawWrite. |
| Eeprom.EepromManager.WritePages | Nehuentue_Sensor_Base/src/eeprom_manager.cpp:157-184 | The page loop changes the bus exactly as WriteChunks says. |
| Eeprom.EepromManager.ReadRaw | Nehuentue_Sensor_Base/src/eeprom_manager.cpp:193-237 | The result is that of RawRead; on success the buffer starts with the bytes read and keeps the rest. |
| Eeprom.EepromManager.WriteBytes | Nehuentue_Sensor_Base/src/eeprom_manager.cpp:264-268 | Status and new device are those of WriteBytesOp. |
| Eeprom.EepromManager.WriteByte | Nehuentue_Sensor_Base/src/eeprom_manager.cpp:259-262 | A one-byte writeBytes. |
| Eeprom.EepromManager.ReadBytes | Nehuentue_Sensor_Base/src/eeprom_manager.cpp:276-280 | Status, device and buffer are those of ReadBytesOp. |
| Eeprom.EepromManager.ReadByte | Nehuentue_Sensor_Base/src/eeprom_manager.cpp:270-274 | A one-byte readBytes. |
| Eeprom.EepromManager.Save | Nehuentue_Sensor_Base/include/eeprom_manager.h:97-102 | Status and new device are those of SaveOp. |
| Eeprom.EepromManager.Load | Nehuentue_Sensor_Base/include/eeprom_manager.h:106-111 | Status, device and the caller's record are those of LoadOp. |
| Eeprom.EepromManager.SaveArray | Nehuentue_Sensor_Base/include/eeprom_manager.h:167-173 | saveArray is save over the elements' bytes. |
| Eeprom.EepromManager.LoadArray | Nehuentue_Sensor_Base/include/eeprom_manager.h:176-182 | loadArray is load into the elements' bytes. |
| Eeprom.EepromManager.SaveWithCrc | Nehuentue_Sensor_Base/include/eeprom_manager.h:115-127 | Status and new device are those of SaveWithCrcOp. |
| Eeprom.EepromManager.LoadWithCrc | Nehuentue_Sensor_Base/include/eeprom_manager.h:131-153 | Status, device and the caller's record are those of LoadWithCrcOp. |
| Eeprom.EepromManager.SaveString | Nehuentue_Sensor_Base/src/eeprom_manager.cpp:286-296 | Status and new device are those of SaveStringOp. |
| Eeprom.EepromManager.LoadString | Nehuentue_Sensor_Base/src/eeprom_manager.cpp:298-314 | The caller's String is replaced exactly when LoadStringOp yields one. |
| Eeprom.EepromManager.SaveCString | Nehuentue_Sensor_Base/src/eeprom_manager.cpp:316-332 | Status and new device are those of SaveCStringOp. |
| Eeprom.EepromManager.LoadCString | Nehuentue_Sensor_Base/src/eeprom_manager.cpp:334-350 | Status, device and buffer are those of LoadCStringOp. |
| Eeprom.EepromManager.Fill | Nehuentue_Sensor_Base/src/eeprom_manager.cpp:373-397 | Status and new device are those of FillOp. |
| Eeprom.EepromManager.Clear | Nehuentue_Sensor_Base/src/eeprom_manager.cpp:356-362 | clear is a fill with 0xFF. |
| Eeprom.EepromManager.ClearAll | Nehuentue_Sensor_Base/src/eeprom_manager.cpp:364-371 | clearAll is clear over the whole configured size. |
| FlashStorage.EncodeHeader | Nehuentue_Sensor_Base/lib/FlashStorageManager/FlashStorageManager.h:80-85 | The header occupies 12 bytes. |
| FlashStorage.HeaderRoundTrip | Nehuentue_Sensor_Base/lib/FlashStorageManager/FlashStorageManager.h:80-85 | A header is read back unchanged from the front of the blob it starts. |
| FlashStorage.Framed | Nehuentue_Sensor_Base/lib/FlashStorageManager/FlashStorageManager.h:165-177 | A framed blob is the 12-byte header followed by the record unchanged. |
| FlashStorage.GetBytes | Nehuentue_Sensor_Base/lib/FlashStorageManager/FlashStorageManager.h:234-242 | getBytes copies at most the requested size, and only from a stored blob. |
| FlashStorage.Get | Nehuentue_Sensor_Base/lib/FlashStorageManager/FlashStorageManager.cpp:195 | A typed getter returns the stored value of the requested type, or the default. |
| FlashStorage.Refusal | Nehuentue_Sensor_Base/lib/FlashStorageManager/FlashStorageManager.h:155-161 | An operation proceeds exactly when initialised, the key has at most 15 characters and the mutex is obtained; otherwise the first failing check is reported, in the order initialised, key length, mutex. |
| FlashStorage.Put | Nehuentue_Sensor_Base/lib/FlashStorageManager/FlashStorageManager.cpp:100-119 | A put either stores the value and counts a write, or fails leaving the namespace as it was, or with the value stored but not reported. |
| FlashStorage.SaveOp | Nehuentue_Sensor_Base/lib/FlashStorageManager/FlashStorageManager.h:154-202 | save succeeds exactly when no check refuses, the namespace is writable and NVS accepts; success stores the record, behind its header when asked, under the key and counts one write at `nowMs`; a refusal reports its status; a failure changes nothing. |
| FlashStorage.LoadOp | Nehuentue_Sensor_Base/lib/FlashStorageManager/FlashStorageManager.h:213-290 | load never changes the entries. A refusal reports its status, and a missing key reports KEY_NOT_FOUND; both copy nothing and change nothing. On success it copies exactly the record's size and counts a read; it never copies more than that, and a failure counts no read. |
| FlashStorage.SaveLoadRoundTrip | Nehuentue_Sensor_Base/lib/FlashStorageManager/FlashStorageManager.h:154-290 | A record saved without error, with or without a header, loads back unchanged and counts one read. |
| FlashStorage.LoadChecksHeader | Nehuentue_Sensor_Base/lib/FlashStorageManager/FlashStorageManager.h:244-270 | The version is checked first and, when wrong, copies nothing. A CRC mismatch is reported after the record is copied, and OK exactly when both match. |
| FlashStorage.LoadCountsHeader | Nehuentue_Sensor_Base/lib/FlashStorageManager/FlashStorageManager.h:244-270 | A version mismatch, a CRC mismatch and a read each count in their own statistic, and nothing else moves. |
| FlashStorage.LoadWrongSize | Nehuentue_Sensor_Base/lib/FlashStorageManager/FlashStorageManager.h:234-242 | A blob that is not exactly a header and a record of the requested size is READ_FAILED, copies nothing and changes nothing. |
| FlashStorage.LoadShortBlob | Nehuentue_Sensor_Base/lib/FlashStorageManager/FlashStorageManager.h:272-285 | A headerless load from a shorter blob fails, after copying the blob to the front of the record. |
| FlashStorage.SaveValueOp | Nehuentue_Sensor_Base/lib/FlashStorageManager/FlashStorageManager.cpp:100-294 | A typed save that succeeds stores the value and counts a write; a failure counts nothing. |
| FlashStorage.LoadValueOp | Nehuentue_Sensor_Base/lib/FlashStorageManager/FlashStorageManager.cpp:121-315 | A typed load never changes the entries, counts a read on success, and leaves the caller's variable alone on failure. |
| FlashStorage.Zero | Nehuentue_Sensor_Base/lib/FlashStorageManager/FlashStorageManager.cpp:195 | The default passed to the getter has the variable's type. |
| FlashStorage.LoadOrDefaultOp | Nehuentue_Sensor_Base/lib/FlashStorageManager/FlashStorageManager.cpp:142-331 | A refused load returns the default and changes nothing; any other load counts a read. |
| FlashStorage.ValueRoundTrip | Nehuentue_Sensor_Base/lib/FlashStorageManager/FlashStorageManager.cpp:100-331 | A value saved without error is what both kinds of typed load return. |
| FlashStorage.MissingKey | Nehuentue_Sensor_Base/lib/FlashStorageManager/FlashStorageManager.cpp:190-193 | A missing key reports KEY_NOT_FOUND, leaves the caller's variable alone, and yields the default. |
| FlashStorage.EmptyStringReported | Nehuentue_Sensor_Base/lib/FlashStorageManager/FlashStorageManager.cpp:109-114 | Saving the empty String stores it but returns WRITE_FAILED and counts no write. |
| FlashStorage.KeyExists | Nehuentue_Sensor_Base/lib/FlashStorageManager/FlashStorageManager.cpp:394-406 | exists is true exactly when no check refuses and the key is stored. |
| FlashStorage.RemoveOp | Nehuentue_Sensor_Base/lib/FlashStorageManager/FlashStorageManager.cpp:408-420 | remove succeeds exactly when no check refuses, the namespace is writable, NVS accepts and the key is stored; the key is then gone, and otherwise nothing changes. |
| FlashStorage.RemoveForgets | Nehuentue_Sensor_Base/lib/FlashStorageManager/FlashStorageManager.cpp:394-420 | After a successful remove the key does not exist and its loads report KEY_NOT_FOUND. |
| FlashStorage.ClearOp | Nehuentue_Sensor_Base/lib/FlashStorageManager/FlashStorageManager.cpp:422-435 | A successful clear empties the namespace; a failed one changes nothing; statistics never change. |
| FlashStorage.FlashStorageManager.State | Nehuentue_Sensor_Base/lib/FlashStorageManager/FlashStorageManager.cpp:17-23 | The state is the manager's flags, entries and statistics. |
| FlashStorage.FlashStorageManager.constructor | Nehuentue_Sensor_Base/lib/FlashStorageManager/FlashStorageManager.cpp:17-23 | Not initialised, no mutex, no namespace name, zeroed statistics. |
| FlashStorage.FlashStorageManager.Begin | Nehuentue_Sensor_Base/lib/FlashStorageManager/FlashStorageManager.cpp:33-81 | begin returns OK at once when already initialised. Otherwise the namespace name is checked, the mutex created and Preferences opened. A failure after the mutex is created leaves the name and mode recorded; only success sets initialised. |
| FlashStorage.FlashStorageManager.End | Nehuentue_Sensor_Base/lib/FlashStorageManager/FlashStorageManager.cpp:83-94 | Not initialised and no mutex; entries and statistics stay. |
| FlashStorage.FlashStorageManager.Save | Nehuentue_Sensor_Base/lib/FlashStorageManager/FlashStorageManager.h:154-202 | Status and new state are those of SaveOp. |
| FlashStorage.FlashStorageManager.Load | Nehuentue_Sensor_Base/lib/FlashStorageManager/FlashStorageManager.h:213-290 | Status, state and the caller's record are those of LoadOp. |
| FlashStorage.FlashStorageManager.SaveValue | Nehuentue_Sensor_Base/lib/FlashStorageManager/FlashStorageManager.cpp:100-294 | Status and new state are those of SaveValueOp. |
| FlashStorage.FlashStorageManager.LoadValue | Nehuentue_Sensor_Base/lib/FlashStorageManager/FlashStorageManager.cpp:121-315 | Status, value and state are those of LoadValueOp. |
| FlashStorage.FlashStorageManager.LoadOrDefault | Nehuentue_Sensor_Base/lib/FlashStorageManager/FlashStorageManager.cpp:142-331 | Value and state are those of LoadOrDefaultOp. |
| FlashStorage.FlashStorageManager.Exists | Nehuentue_Sensor_Base/lib/FlashStorageManager/FlashStorageManager.cpp:394-406 | The answer is KeyExists of the current state. |
| FlashStorage.FlashStorageManager.Remove | Nehuentue_Sensor_Base/lib/FlashStorageManager/FlashStorageManager.cpp:408-420 | Status and new state are those of RemoveOp. |
| FlashStorage.FlashStorageManager.Clear | Nehuentue_Sensor_Base/lib/FlashStorageManager/FlashStorageManager.cpp:422-435 | Status and new state are those of ClearOp. |
| FlashStorage.FlashStorageManager.ResetStats | Nehuentue_Sensor_Base/lib/FlashStorageManager/FlashStorageManager.cpp:454-457 | Every statistic is zero; nothing else changes. |

## Left out

- Serial, I2C and NVS hardware are abstracted:
  - The UART is a byte buffer.
  - The EEPROM is a memory with an acknowledgement budget.
  - NVS is a map.
  - Baud rates, pins, clock frequency, the I2C device address and the individual I2C command-link calls are not modelled.
- Time is an input:
  - `millis()` values are parameters.
  - The receive loop's inter-byte timeout is abstracted. The bytes that arrive before the line goes idle are the input; a zero timeout reads nothing.
  - `vTaskDelay` and the polling period are not modelled.
- FreeRTOS scheduling is not modelled:
  - Task interleaving, priorities and stack sizes are left out.
  - Each FreeRTOS task loop is modelled one turn at a time (`PollStep`, `DecodeStep`).
  - Whether a mutex is obtained within its timeout is a parameter.
  - A failed `xTaskCreate` is not modelled.
- `mqttTask`, `eepromTask` and `initDefaultConfig` in `tasks.cpp` depend on the Wi-Fi and MQTT managers, and those are not part of this model.
- Floating point is left out:
  - the temperature and humidity fields of `SensorData`;
  - `saveFloat`/`loadFloat`.
- `ModbusManager::modbusTask`, `processRequest` and `onResponse` are left out. The request queue is created but never used by `sendRequest`, and the callback is foreign code.
- Diagnostic output is not modelled: `printStats`, `printInfo`, `printStatus`, `printMemoryMap`, `dumpMemory`, `printAllKeys` and the `Serial.printf` traces.
- Hardware probes are left out:
  - `EEPROMManager::verifyDevice` and `setDeviceAddress` only probe or re-address the chip;
  - `FlashStorageManager::getFreeEntries` queries NVS internals.
- NVS holds one namespace only, the one `begin` opens; other namespaces on the same partition are not modelled.
- The `Preferences` library is modelled as it is documented to behave:
  - `putString` reports the string's length;
  - `getBytes` copies a blob only when it fits the buffer;
  - `remove` fails for a key that is not stored.
- `sizeof(T)` is at least 1: `save<T>`/`load<T>` require a non-empty record, as every C++ object is.
- EepromBus.RawRead: models the corrected readRaw. A zero-length read issues only the address transaction. The as-written out-of-bounds store is kept as a finding (below).
- EepromBus.RawRead: a failed sequential read that has already filled part of the caller's buffer is modelled as filling nothing.
- ModbusRtu.RtuMaster.WriteMultipleRegisters and ModbusMgr.ModbusManager.WriteMultipleRegisters: model the corrected buffer size. The as-written undersized buffer is kept as a finding (below).
- ModbusMgr.ExtractRegisters: models the corrected count, capped at 126 registers so that every index stays inside the 256-byte buffer. It differs from the source only where the source reads past `data[255]`. The as-written overrun is kept as a finding (below).
- ModbusMgr.ModbusManager.SendRequest: one `responseTime` reading stands for the two `millis()` calls that stamp the response and the statistics.
- FlashStorage.SaveOp: one `nowMs` reading stands for both the header's `millis() / 1000` and `lastWriteTime`; FlashStorage.Put and the typed saves do the same.

## Findings

| source | as written | input that shows it | evidently intended | confidence | as-written member | corrected member |
|---|---|---|---|---|---|---|
| Nehuentue_Sensor_Base/lib/ModbusManager/ModbusManager.cpp:188-202 | `uint8_t byteCount = quantity * 2; uint8_t request[7 + byteCount];` truncates the byte count, and the loop then writes `2 * quantity` value bytes past the end | quantity = 128: the buffer has 7 bytes, and the loop writes 256 | a buffer of 7 + 2·quantity bytes (quantity is at most 123 in Modbus) | high, not executed | ModbusFrame.WriteMultipleOverrun | ModbusFrame.EncodeWriteMultiple |
| Nehuentue_Sensor_Base/src/modbus_rtu.cpp:248-262 | the same truncated byte count in `modbusWriteMultipleRegisters` | quantity = 128 | the same | high, not executed | ModbusFrame.WriteMultipleOverrun | ModbusFrame.EncodeWriteMultiple |
| Nehuentue_Sensor_Base/lib/ModbusManager/ModbusManager.cpp:238-247 | the register count comes from the byte count alone, so the loop can read past the 256-byte buffer | a CRC-valid 256-byte reply with function 0x03 and byte count 255, with maxRegisters = 127: reads `data[256]` | cap the count at the last register that fits the buffer (126) | high, not executed | ModbusMgr.ExtractOverrunReachable | ModbusMgr.ExtractRegisters |
| Nehuentue_Sensor_Base/src/modbus_rtu.cpp:174-175 | the CRC-error diagnostic uses `bytesRead - 2` in `size_t` arithmetic | a single stray byte followed by silence: index and length 2^32 - 1 | print a diagnostic only for frames of at least three bytes | high, not executed | ModbusRtu.DiagnosticOverrun | ModbusRtu.DiagnosticSpan |
| Nehuentue_Sensor_Base/src/eeprom_manager.cpp:224-227 | readRaw always reads a last byte into `buffer[length - 1]`, even when `length` is 0 | saveString of the empty String, then loadString: `readRaw(address + 2, buffer, 0)` stores at index 2^32 - 1 of a one-byte buffer; likewise saveCString of "" stores length 0, and loadCString then calls `readBytes(address + 2, buffer, 0)` (line 345 of eeprom_manager.cpp), which stores one byte before the caller's buffer | a zero-length read reads nothing | high, not executed | Eeprom.EmptyStringReadOverrun | Eeprom.StringRoundTrip |
