/**
 * The I2C side of EEPROMManager (eeprom_manager.cpp): the 24LCxx chip, the
 * page writes writeRaw issues and the sequential read readRaw issues, as
 * functions of the manager's configuration and the chip's state.  The
 * manager's methods (module Eeprom) are proved against these functions.
 *
 * The I2C bus and the FreeRTOS mutex are the environment.  `contended` says
 * that another task holds the mutex past the timeout; `acks` is the number of
 * further I2C transactions the chip acknowledges before it refuses one.
 */
module EepromBus {
  import opened Bytes

  /** EEPROM_PAGE_SIZE: the same for every 24LCxx part. */
  const PageSize: nat := 32

  /** The cells a 16-bit word address reaches; the modelled chip has that many. */
  const AddressSpace: nat := 0x1_0000

  /** The esp_err_t values the raw transfers return. */
  datatype EspErr = EspOk | InvalidState | InvalidArg | Timeout | BusFail

  // ---------------------------------------------------------------------------
  // Cells
  // ---------------------------------------------------------------------------

  /** `mem` with `bytes` stored from `address` on and every other cell kept. */
  function Splice(mem: seq<byte>, address: nat, bytes: seq<byte>): (r: seq<byte>)
    requires address + |bytes| <= |mem|
    ensures |r| == |mem|
  {
    seq(|mem|, k requires 0 <= k < |mem| => if address <= k < address + |bytes| then bytes[k - address] else mem[k])
  }

  /** What was stored is what is read back. */
  lemma SpliceRead(mem: seq<byte>, address: nat, bytes: seq<byte>)
    requires address + |bytes| <= |mem|
    ensures Splice(mem, address, bytes)[address..address + |bytes|] == bytes
  {
    var r := Splice(mem, address, bytes);
    forall i | 0 <= i < |bytes|
      ensures r[address..address + |bytes|][i] == bytes[i]
    {
      assert r[address + i] == bytes[i];
    }
  }

  /** A read of cells the store did not touch sees the old contents. */
  lemma SpliceReadElsewhere(mem: seq<byte>, address: nat, bytes: seq<byte>, from: nat, to: nat)
    requires address + |bytes| <= |mem| && from <= to <= |mem|
    requires to <= address || address + |bytes| <= from
    ensures Splice(mem, address, bytes)[from..to] == mem[from..to]
  {
    var r := Splice(mem, address, bytes);
    forall i | from <= i < to
      ensures r[i] == mem[i]
    {
    }
  }

  /** Two adjacent stores are one store of the concatenation. */
  lemma SpliceAppend(mem: seq<byte>, address: nat, b1: seq<byte>, b2: seq<byte>)
    requires address + |b1| + |b2| <= |mem|
    ensures Splice(Splice(mem, address, b1), address + |b1|, b2) == Splice(mem, address, b1 + b2)
  {
  }

  /** Storing nothing changes nothing. */
  lemma SpliceEmpty(mem: seq<byte>, address: nat)
    requires address <= |mem|
    ensures Splice(mem, address, []) == mem
  {
  }

  // ---------------------------------------------------------------------------
  // Page writes
  // ---------------------------------------------------------------------------

  /**
   * One page write as the chip performs it: its address counter wraps inside
   * the 32-byte page, so the j-th byte lands at the page's start plus
   * (address + j) mod 32.
   */
  function PageWrite(mem: seq<byte>, address: nat, bytes: seq<byte>): (r: seq<byte>)
    requires address < |mem| && |bytes| <= PageSize
    ensures |r| == |mem|
  {
    seq(|mem|, k requires 0 <= k < |mem| =>
      if k / PageSize == address / PageSize && (k - address) % PageSize < |bytes|
      then bytes[(k - address) % PageSize] else mem[k])
  }

  /** A page write that stays inside its page stores the bytes where they were meant to go. */
  lemma PageWriteInPage(mem: seq<byte>, address: nat, bytes: seq<byte>)
    requires address + |bytes| <= |mem| && address < |mem|
    requires address % PageSize + |bytes| <= PageSize
    ensures PageWrite(mem, address, bytes) == Splice(mem, address, bytes)
  {
    var base := address - address % PageSize;
    assert address / PageSize * PageSize == base;
    forall k | 0 <= k < |mem|
      ensures PageWrite(mem, address, bytes)[k] == Splice(mem, address, bytes)[k]
    {
      if base <= k < base + PageSize {
        assert k / PageSize == address / PageSize;
        if k < address {
          assert (k - address) % PageSize == k - address + PageSize;
        } else {
          assert (k - address) % PageSize == k - address;
        }
      } else {
        assert k / PageSize != address / PageSize;
      }
    }
  }

  /** The bytes left in the page that holds `address`. */
  function PageRemaining(address: nat): (r: nat)
    ensures 1 <= r <= PageSize && address % PageSize + r == PageSize
  {
    PageSize - address % PageSize
  }

  /**
   * The loop of writeRaw on the chip: every transaction holds the bytes up to
   * the end of the current page, or the rest of the data when that is
   * shorter; each must be acknowledged, and the first that is not ends the
   * loop with the earlier pages written.
   */
  datatype BusWrite = BusWrite(done: bool, memory: seq<byte>, acks: nat)

  function WriteChunks(mem: seq<byte>, acks: nat, address: nat, data: seq<byte>): (r: BusWrite)
    requires address + |data| <= |mem|
    ensures |r.memory| == |mem|
    decreases |data|
  {
    if |data| == 0 then BusWrite(true, mem, acks)
    else if acks == 0 then BusWrite(false, mem, 0)
    else
      var n := Min(PageRemaining(address), |data|);
      WriteChunks(PageWrite(mem, address, data[..n]), acks - 1, address + n, data[n..])
  }

  /** One turn of writeRaw's loop, `written` bytes into `data`: an acknowledged page write and the rest. */
  lemma WriteChunksStep(mem: seq<byte>, acks: nat, address: nat, data: seq<byte>, written: nat, n: nat)
    requires written < |data| && acks > 0 && address + |data| <= |mem|
    requires n == Min(PageRemaining(address + written), |data| - written)
    ensures WriteChunks(mem, acks, address + written, data[written..])
      == WriteChunks(PageWrite(mem, address + written, data[written..written + n]), acks - 1, address + written + n, data[written + n..])
  {
    assert data[written..][..n] == data[written..written + n];
    assert data[written..][n..] == data[written + n..];
  }

  /** The number of page writes writeRaw issues for `length` bytes from `address`. */
  function PageWrites(address: nat, length: nat): nat
    decreases length
  {
    if length == 0 then 0
    else
      var n := Min(PageRemaining(address), length);
      1 + PageWrites(address + n, length - n)
  }

  /** The bytes stored before the chip refuses a page write, when it acknowledges `acks` of them. */
  function Written(address: nat, length: nat, acks: nat): (w: nat)
    ensures w <= length
    decreases length
  {
    if length == 0 || acks == 0 then 0
    else
      var n := Min(PageRemaining(address), length);
      n + Written(address + n, length - n, acks - 1)
  }

  /** Every byte is stored exactly when the chip acknowledges all the page writes. */
  lemma {:induction false} WrittenAll(address: nat, length: nat, acks: nat)
    ensures Written(address, length, acks) == length <==> acks >= PageWrites(address, length)
    decreases length
  {
    if length > 0 && acks > 0 {
      var n := Min(PageRemaining(address), length);
      WrittenAll(address + n, length - n, acks - 1);
    }
  }

  /**
   * A write cut short stores nothing or a prefix that ends exactly on a page
   * boundary, because every transaction but the last fills its page.
   */
  lemma {:induction false} WrittenOnBoundary(address: nat, length: nat, acks: nat)
    ensures var w := Written(address, length, acks);
      0 < w < length ==> (address + w) % PageSize == 0
    decreases length
  {
    if length > 0 && acks > 0 {
      var n := Min(PageRemaining(address), length);
      WrittenOnBoundary(address + n, length - n, acks - 1);
      if n < length {
        assert address + n == (address / PageSize + 1) * PageSize;
      }
    }
  }

  /**
   * A page write never crosses a page: the loop's effect on the chip is the
   * plain store of the bytes it got through, and the acknowledgements used
   * are the page writes issued.
   */
  lemma {:induction false} WriteChunksStores(mem: seq<byte>, acks: nat, address: nat, data: seq<byte>)
    requires address + |data| <= |mem|
    ensures var r, w := WriteChunks(mem, acks, address, data), Written(address, |data|, acks);
      r.done == (acks >= PageWrites(address, |data|))
      && r.acks == acks - Min(acks, PageWrites(address, |data|))
      && r.memory == Splice(mem, address, data[..w])
    decreases |data|
  {
    var w := Written(address, |data|, acks);
    if |data| == 0 || acks == 0 {
      assert data[..w] == [];
      SpliceEmpty(mem, address);
    } else {
      var n := Min(PageRemaining(address), |data|);
      var mem1 := PageWrite(mem, address, data[..n]);
      PageWriteInPage(mem, address, data[..n]);
      WriteChunksStores(mem1, acks - 1, address + n, data[n..]);
      var w1 := Written(address + n, |data| - n, acks - 1);
      assert w == n + w1;
      SpliceAppend(mem, address, data[..n], data[n..][..w1]);
      assert data[..n] + data[n..][..w1] == data[..w];
    }
  }

  // ---------------------------------------------------------------------------
  // The bus
  // ---------------------------------------------------------------------------

  /**
   * The I2C bus with the chip on it, as the ESP-IDF calls writeRaw and
   * readRaw make see it: whether another task holds the bus mutex past the
   * timeout, how many more transactions the chip acknowledges, and the
   * chip's cells.
   */
  class I2cBus {
    var contended: bool
    var acks: nat
    var memory: seq<byte>

    constructor (memory: seq<byte>, contended: bool, acks: nat)
      ensures this.memory == memory && this.contended == contended && this.acks == acks
    {
      this.memory := memory;
      this.contended := contended;
      this.acks := acks;
    }

    /** xSemaphoreTake with a timeout: it fails only while another task holds the mutex. */
    method TakeMutex() returns (taken: bool)
      ensures taken == !contended
    {
      taken := !contended;
    }

    /** One command link run by i2c_master_cmd_begin: acknowledged while the chip still answers. */
    method Transaction() returns (ok: bool)
      modifies this
      ensures ok == (old(acks) > 0) && acks == old(acks) - (if ok then 1 else 0)
      ensures memory == old(memory) && contended == old(contended)
    {
      ok := acks > 0;
      if ok {
        acks := acks - 1;
      }
    }

    /** A page-write command link: the word address followed by the bytes. */
    method WritePage(address: nat, bytes: seq<byte>) returns (ok: bool)
      requires address < |memory| && |bytes| <= PageSize
      modifies this
      ensures ok == (old(acks) > 0) && contended == old(contended)
      ensures ok ==> memory == PageWrite(old(memory), address, bytes) && acks == old(acks) - 1
      ensures !ok ==> memory == old(memory) && acks == old(acks)
    {
      ok := acks > 0;
      if ok {
        acks := acks - 1;
        memory := PageWrite(memory, address, bytes);
      }
    }

    /** A sequential-read command link from the chip's address counter, set to `address` beforehand. */
    method ReadSequential(address: nat, length: nat) returns (ok: bool, bytes: seq<byte>)
      requires address + length <= |memory|
      modifies this
      ensures ok == (old(acks) > 0) && memory == old(memory) && contended == old(contended)
      ensures ok ==> bytes == memory[address..address + length] && acks == old(acks) - 1
      ensures !ok ==> bytes == [] && acks == old(acks)
    {
      ok := acks > 0;
      bytes := [];
      if ok {
        acks := acks - 1;
        bytes := memory[address..address + length];
      }
    }
  }

  // ---------------------------------------------------------------------------
  // The raw transfers
  // ---------------------------------------------------------------------------

  /**
   * What a transfer depends on: the manager's `initialized` flag and
   * configured size, the environment's mutex and acknowledgements, and the
   * chip's cells.
   */
  datatype Device = Device(initialized: bool, size: u16, contended: bool, memory: seq<byte>, acks: nat)

  predicate Wired(d: Device)
  {
    |d.memory| == AddressSpace
  }

  datatype Transfer = Transfer(err: EspErr, device: Device)

  /**
   * writeRaw: refuses an uninitialised manager, then a range that ends past
   * the configured size, then a mutex it cannot take; otherwise the page-write
   * loop.  `data` is only read once the checks pass, so a short buffer is
   * acceptable when the range check is bound to refuse it.
   */
  function RawWrite(d: Device, address: u16, data: seq<byte>, length: nat): (r: Transfer)
    requires Wired(d) && (length <= |data| || address + length >= AddressSpace)
    ensures Wired(r.device) && r.device.initialized == d.initialized && r.device.size == d.size
    ensures r.device.contended == d.contended
    ensures r.err == EspOk ==> address + length <= d.size
  {
    if !d.initialized then Transfer(InvalidState, d)
    else if address + length > d.size then Transfer(InvalidArg, d)
    else if d.contended then Transfer(Timeout, d)
    else
      var w := WriteChunks(d.memory, d.acks, address, data[..length]);
      Transfer(if w.done then EspOk else BusFail, d.(memory := w.memory, acks := w.acks))
  }

  /**
   * The meaning of a raw write: it succeeds exactly when the manager is
   * initialised, the range fits, the mutex is taken and every page write is
   * acknowledged, and then the cells of the range hold the data and no other
   * cell changes; a failed write leaves every cell as it was except those of
   * the pages acknowledged before the failure.
   */
  lemma RawWriteStores(d: Device, address: u16, data: seq<byte>, length: nat)
    requires Wired(d) && (length <= |data| || address + length >= AddressSpace)
    ensures var r := RawWrite(d, address, data, length);
      (r.err == EspOk <==>
        d.initialized && address + length <= d.size && !d.contended && d.acks >= PageWrites(address, length))
      && (r.err == EspOk ==> r.device.memory == Splice(d.memory, address, data[..length]))
      && (r.err != EspOk ==> exists w :: 0 <= w <= length && w <= |data| && address + w <= |d.memory| && r.device.memory == Splice(d.memory, address, data[..w]))
  {
    var r := RawWrite(d, address, data, length);
    if d.initialized && address + length <= d.size && !d.contended {
      WriteChunksStores(d.memory, d.acks, address, data[..length]);
      WrittenAll(address, length, d.acks);
      var w := Written(address, length, d.acks);
      assert data[..length][..w] == data[..w];
    } else {
      SpliceEmpty(d.memory, address);
      assert data[..0] == [];
    }
  }

  datatype Fetch = Fetch(err: EspErr, bytes: seq<byte>, device: Device)

  /**
   * readRaw, as intended: the same checks as writeRaw, then one transaction
   * that sets the chip's address counter and one that reads `length` bytes
   * sequentially.  A zero-length read issues no read transaction (see
   * Eeprom.AsWrittenLastByteIndex for the code as written).  A refused
   * transaction delivers nothing.
   */
  function RawRead(d: Device, address: u16, length: nat): (r: Fetch)
    requires Wired(d)
    ensures r.device == d.(acks := r.device.acks)
    ensures r.err == EspOk ==> |r.bytes| == length && address + length <= d.size
    ensures r.err != EspOk ==> r.bytes == []
  {
    if !d.initialized then Fetch(InvalidState, [], d)
    else if address + length > d.size then Fetch(InvalidArg, [], d)
    else if d.contended then Fetch(Timeout, [], d)
    else if d.acks == 0 then Fetch(BusFail, [], d)
    else if length == 0 then Fetch(EspOk, [], d.(acks := d.acks - 1))
    else if d.acks == 1 then Fetch(BusFail, [], d.(acks := 0))
    else Fetch(EspOk, d.memory[address..address + length], d.(acks := d.acks - 2))
  }

  /**
   * A raw write that succeeded is read back unchanged, as long as the chip
   * acknowledges the read's two transactions.
   */
  lemma RawReadAfterWrite(d: Device, address: u16, data: seq<byte>)
    requires Wired(d) && RawWrite(d, address, data, |data|).err == EspOk
    requires RawWrite(d, address, data, |data|).device.acks >= 2
    ensures var r := RawRead(RawWrite(d, address, data, |data|).device, address, |data|);
      r.err == EspOk && r.bytes == data
  {
    RawWriteStores(d, address, data, |data|);
    var m := RawWrite(d, address, data, |data|).device.memory;
    assert data[..|data|] == data;
    SpliceRead(d.memory, address, data);
  }
}
