/**
 * The RS-485 serial line (Serial1) as both Modbus masters use it, and the
 * receive loop they share.  Time is not modelled: the receive buffer holds
 * exactly the bytes that arrive with gaps shorter than the inter-byte timeout,
 * so "nothing available" stands for "the timeout expired".
 */
module SerialLink {
  import opened Bytes
  import opened ModbusFrame

  /** A UART: bytes received and not yet read, and every byte written so far. */
  class SerialPort {
    var pending: seq<byte>
    var transmitted: seq<byte>

    constructor ()
      ensures pending == [] && transmitted == []
    {
      pending := [];
      transmitted := [];
    }

    /** available(): how many received bytes are waiting. */
    method Available() returns (n: nat)
      ensures n == |pending|
    {
      n := |pending|;
    }

    /** read(): the oldest received byte. */
    method Read() returns (b: byte)
      requires |pending| > 0
      modifies this
      ensures b == old(pending[0]) && pending == old(pending[1..])
      ensures transmitted == old(transmitted)
    {
      b := pending[0];
      pending := pending[1..];
    }

    /** write() followed by flush(): the bytes go out on the line. */
    method Write(bytes: seq<byte>)
      modifies this
      ensures transmitted == old(transmitted) + bytes && pending == old(pending)
    {
      transmitted := transmitted + bytes;
    }

    /** Bytes sent by the slave land in the receive buffer. */
    method Arrive(bytes: seq<byte>)
      modifies this
      ensures pending == old(pending) + bytes && transmitted == old(transmitted)
    {
      pending := pending + bytes;
    }
  }

  /** The loop run before every request: read and discard until nothing is available. */
  method Drain(port: SerialPort) returns (discarded: nat)
    modifies port
    ensures discarded == |old(port.pending)|
    ensures port.pending == [] && port.transmitted == old(port.transmitted)
  {
    discarded := 0;
    var n := port.Available();
    while n > 0
      invariant discarded <= |old(port.pending)|
      invariant port.pending == old(port.pending)[discarded..] && n == |port.pending|
      invariant port.transmitted == old(port.transmitted)
      decreases n
    {
      var _ := port.Read();
      discarded := discarded + 1;
      n := port.Available();
    }
  }

  /** How many bytes the receive loop takes when the timeout is `timeoutMs`. */
  function BytesRead(input: seq<byte>, timeoutMs: nat): (r: nat)
    ensures r <= ReadLimit(input)
  {
    if timeoutMs == 0 then 0 else ReceivedLength(input)
  }

  /**
   * The receive loop: read one byte at a time into `buf` until a complete
   * frame is in, the buffer is full or the line goes idle.  With a zero
   * timeout the condition `millis() - startTime < timeout` is false at once
   * and nothing is read.
   */
  method ReceiveFrame(port: SerialPort, buf: array<byte>, timeoutMs: nat) returns (bytesRead: nat)
    requires buf.Length == MaxResponseSize
    modifies port, buf
    ensures bytesRead == BytesRead(old(port.pending), timeoutMs)
    ensures bytesRead <= ReadLimit(old(port.pending))
    ensures buf[..bytesRead] == old(port.pending)[..bytesRead]
    ensures forall j :: bytesRead <= j < buf.Length ==> buf[j] == old(buf[j])
    ensures port.pending == old(port.pending)[bytesRead..]
    ensures port.transmitted == old(port.transmitted)
  {
    ghost var input := port.pending;
    bytesRead := 0;
    while timeoutMs > 0 && bytesRead < MaxResponseSize
      invariant timeoutMs == 0 ==> bytesRead == 0
      invariant bytesRead <= ReadLimit(input)
      invariant port.pending == input[bytesRead..] && port.transmitted == old(port.transmitted)
      invariant forall j :: 0 <= j < bytesRead ==> buf[j] == input[j]
      invariant forall j :: bytesRead <= j < buf.Length ==> buf[j] == old(buf[j])
      invariant StopAt(input, bytesRead) == ReceivedLength(input)
      invariant bytesRead >= 5 ==> !FrameComplete(input[..bytesRead])
      decreases MaxResponseSize - bytesRead
    {
      var available := port.Available();
      if available == 0 {
        break;
      }
      var b := port.Read();
      buf[bytesRead] := b;
      bytesRead := bytesRead + 1;
      if bytesRead >= 5 {
        CompleteDependsOnHeader(input, bytesRead);
        var functionCode := buf[1];
        var complete := false;
        if IsException(functionCode) {
          complete := true;
        } else if functionCode == 0x03 || functionCode == 0x04 {
          complete := bytesRead >= 5 + buf[2] as int;
        } else if functionCode == 0x01 || functionCode == 0x02 {
          complete := bytesRead >= 5 + buf[2] as int;
        } else if functionCode == 0x06 || functionCode == 0x10 {
          complete := bytesRead >= 8;
        }
        assert buf[1] == input[1] && buf[2] == input[2];
        assert complete == FrameComplete(input[..bytesRead]);
        if complete {
          break;
        }
      }
    }
    assert buf[..bytesRead] == input[..bytesRead];
  }
}
