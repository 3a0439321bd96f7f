/**
 * FlashStorageManager: configuration kept in the ESP32's NVS flash through
 * the Preferences library.  Records are blobs, optionally behind a 12-byte
 * header carrying their CRC-16/MODBUS, a format version, their size and a
 * timestamp; strings, integers and booleans are stored as typed entries.
 *
 * Every operation is a function from the Flash state it starts from (the
 * manager's flags and statistics and the entries of its namespace) to its
 * status and the state it leaves; the class's methods are proved to do
 * exactly that.  Whether the manager's mutex is obtained within its
 * timeout and whether the NVS driver accepts a write are inputs; the clock
 * is an input in milliseconds.
 */
module FlashStorage {
  import opened Bytes
  import opened Crc16

  const Version: u16 := 1
  const MaxKeyLength: nat := 15
  const MaxStringLength: nat := 512
  const HeaderSize: nat := 12

  /** FlashStorageStatus. */
  datatype Status = Ok | NotInitialized | KeyTooLong | SizeTooLarge | WriteFailed | ReadFailed
                  | KeyNotFound | CrcMismatch | VersionMismatch | Timeout | NullPointer

  type i32 = x: int | -0x8000_0000 <= x < 0x8000_0000

  /**
   * A Preferences entry, by the type it was stored with: a blob, a String
   * (its characters are bytes), an int32_t, a uint32_t or a bool.
   */
  datatype Value = Blob(bytes: seq<byte>) | Text(text: string) | Int(i: i32) | UInt(u: u32) | Flag(b: bool)

  /** FlashStorageStats; the counters are uint32_t and wrap, the times are millis() values. */
  datatype Stats = Stats(totalWrites: u32, totalReads: u32, crcErrors: u32, versionMismatches: u32,
                         lastWriteTime: u32, lastReadTime: u32)

  const NoStats := Stats(0, 0, 0, 0, 0, 0)

  /** A successful write at time `nowMs`. */
  function Wrote(s: Stats, nowMs: u32): Stats
  {
    s.(totalWrites := Inc32(s.totalWrites), lastWriteTime := nowMs)
  }

  /** A successful read at time `nowMs`. */
  function Read(s: Stats, nowMs: u32): Stats
  {
    s.(totalReads := Inc32(s.totalReads), lastReadTime := nowMs)
  }

  /** What the operations depend on and change. */
  datatype Flash = Flash(initialized: bool, readOnly: bool, entries: map<string, Value>, stats: Stats)

  // ---------------------------------------------------------------------------
  // The header
  // ---------------------------------------------------------------------------

  /** FlashStorageHeader. */
  datatype Header = Header(crc: u16, version: u16, size: u32, timestamp: u32)

  /** The header's object representation: four little-endian fields, no padding. */
  function EncodeHeader(h: Header): (b: seq<byte>)
    ensures |b| == HeaderSize
  {
    Le16(h.crc) + Le16(h.version) + Le32(h.size) + Le32(h.timestamp)
  }

  /** The header at the start of a stored blob. */
  function DecodeHeader(b: seq<byte>): Header
    requires |b| >= HeaderSize
  {
    Header(FromLe16(b[0..2]), FromLe16(b[2..4]), FromLe32(b[4..8]), FromLe32(b[8..12]))
  }

  /** A header is read back from the front of the blob it starts. */
  lemma HeaderRoundTrip(h: Header, rest: seq<byte>)
    ensures DecodeHeader(EncodeHeader(h) + rest) == h
  {
    var b := EncodeHeader(h) + rest;
    assert b[0..2] == Le16(h.crc);
    assert b[2..4] == Le16(h.version);
    assert b[4..8] == Le32(h.size);
    assert b[8..12] == Le32(h.timestamp);
    Le16RoundTrip(h.crc);
    Le16RoundTrip(h.version);
    Le32RoundTrip(h.size);
    Le32RoundTrip(h.timestamp);
  }

  /**
   * The blob save stores with a header: the record's CRC, version 1, its
   * size as a uint32_t and the time in seconds, then the record.
   */
  function Framed(data: seq<byte>, nowMs: u32): (b: seq<byte>)
    ensures |b| == HeaderSize + |data| && b[HeaderSize..] == data
  {
    EncodeHeader(Header(CrcValue(data), Version, |data| % U32_LIMIT, nowMs / 1000)) + data
  }

  // ---------------------------------------------------------------------------
  // Preferences
  // ---------------------------------------------------------------------------

  /**
   * Preferences::getBytes into a buffer of maxLen bytes: the stored blob
   * when it fits; nothing for a blob too large, an empty one or an entry of
   * another type.  The number of bytes read is the length of the result.
   */
  function GetBytes(v: Value, maxLen: nat): (r: seq<byte>)
    ensures |r| <= maxLen
    ensures r != [] ==> v == Blob(r)
  {
    if v.Blob? && |v.bytes| <= maxLen then v.bytes else []
  }

  /** The Preferences getters: the stored value when it has the requested type, the default otherwise. */
  function Get(v: Option<Value>, default: Value): (r: Value)
    ensures r == default || (v == Some(r) && SameType(r, default))
  {
    if v.Some? && SameType(v.value, default) then v.value else default
  }

  predicate SameType(a: Value, b: Value)
  {
    (a.Blob? && b.Blob?) || (a.Text? && b.Text?) || (a.Int? && b.Int?) || (a.UInt? && b.UInt?) || (a.Flag? && b.Flag?)
  }

  /**
   * What a successful Preferences put reports: the bytes written for a blob,
   * strlen for a String, the size of the type for a number or a bool.
   */
  function Reported(v: Value): nat
  {
    match v
    case Blob(bytes) => |bytes|
    case Text(text) => |text|
    case Int(_) => 4
    case UInt(_) => 4
    case Flag(_) => 1
  }

  // ---------------------------------------------------------------------------
  // The operations
  // ---------------------------------------------------------------------------

  /**
   * The checks every keyed operation makes first, in order: the manager is
   * initialised, the key fits NVS's 15 characters, the mutex is obtained.
   */
  function Refusal(f: Flash, key: string, locked: bool): (r: Option<Status>)
    ensures r.None? <==> f.initialized && |key| <= MaxKeyLength && locked
    ensures r.Some? ==> r.value in {NotInitialized, KeyTooLong, Timeout}
    ensures !f.initialized ==> r == Some(NotInitialized)
    ensures f.initialized && |key| > MaxKeyLength ==> r == Some(KeyTooLong)
    ensures f.initialized && |key| <= MaxKeyLength && !locked ==> r == Some(Timeout)
  {
    if !f.initialized then Some(NotInitialized)
    else if |key| > MaxKeyLength then Some(KeyTooLong)
    else if !locked then Some(Timeout)
    else None
  }

  datatype Saved = Saved(status: Status, flash: Flash)

  /**
   * A Preferences put of `v` under `key` once the checks have passed: the
   * write happens unless the namespace is read-only, the driver fails or a
   * blob is empty, and the operation counts as written exactly when the put
   * reports a nonzero length.
   */
  function Put(f: Flash, key: string, v: Value, nvsOk: bool, nowMs: u32): (r: Saved)
    ensures r.status in {Ok, WriteFailed}
    ensures r.status == Ok ==> r.flash == f.(entries := f.entries[key := v], stats := Wrote(f.stats, nowMs))
    ensures r.status == WriteFailed ==> r.flash == f || r.flash == f.(entries := f.entries[key := v])
  {
    if f.readOnly || !nvsOk || v == Blob([]) then Saved(WriteFailed, f)
    else if Reported(v) == 0 then Saved(WriteFailed, f.(entries := f.entries[key := v]))
    else Saved(Ok, f.(entries := f.entries[key := v], stats := Wrote(f.stats, nowMs)))
  }

  /** save<T>: the record, behind a header when `useHeader` is set. */
  function SaveOp(f: Flash, key: string, data: seq<byte>, useHeader: bool, locked: bool, nvsOk: bool, nowMs: u32): (r: Saved)
    requires |data| >= 1
    ensures r.status == Ok <==> Refusal(f, key, locked).None? && !f.readOnly && nvsOk
    ensures Refusal(f, key, locked).Some? ==> r == Saved(Refusal(f, key, locked).value, f)
    ensures r.status != Ok ==> r.flash == f
    ensures r.status == Ok ==>
      r.flash.entries == f.entries[key := Blob(if useHeader then Framed(data, nowMs) else data)]
      && r.flash.stats == Wrote(f.stats, nowMs)
    ensures r.flash.initialized == f.initialized && r.flash.readOnly == f.readOnly
  {
    match Refusal(f, key, locked)
    case Some(s) => Saved(s, f)
    case None => Put(f, key, Blob(if useHeader then Framed(data, nowMs) else data), nvsOk, nowMs)
  }

  /** The status of a read, the bytes it copied into the caller's record, and the state it leaves. */
  datatype Fetched = Fetched(status: Status, copied: seq<byte>, flash: Flash)

  /**
   * load<T> for a record of `size` bytes.  With a header: the key must
   * exist, the blob must be exactly header plus record, the version must be
   * 1, and then the record is copied out before its CRC is compared.
   * Without one: the key must exist, and the blob is copied in when it fits
   * but only a blob of exactly `size` bytes succeeds.
   */
  function LoadOp(f: Flash, key: string, size: nat, useHeader: bool, locked: bool, nowMs: u32): (r: Fetched)
    requires size >= 1
    ensures r.flash.initialized == f.initialized && r.flash.readOnly == f.readOnly && r.flash.entries == f.entries
    ensures r.status == Ok ==> |r.copied| == size && r.flash.stats == Read(f.stats, nowMs)
    ensures |r.copied| <= size
    ensures Refusal(f, key, locked).Some? ==> r == Fetched(Refusal(f, key, locked).value, [], f)
    ensures Refusal(f, key, locked).None? && key !in f.entries ==> r == Fetched(KeyNotFound, [], f)
    ensures r.status != Ok ==>
      r.flash.stats.totalReads == f.stats.totalReads && r.flash.stats.lastReadTime == f.stats.lastReadTime
  {
    match Refusal(f, key, locked)
    case Some(s) => Fetched(s, [], f)
    case None =>
      if key !in f.entries then Fetched(KeyNotFound, [], f)
      else if useHeader then
        var b := GetBytes(f.entries[key], HeaderSize + size);
        if |b| != HeaderSize + size then Fetched(ReadFailed, [], f)
        else
          var h := DecodeHeader(b);
          if h.version != Version then
            Fetched(VersionMismatch, [], f.(stats := f.stats.(versionMismatches := Inc32(f.stats.versionMismatches))))
          else if CrcValue(b[HeaderSize..]) != h.crc then
            Fetched(CrcMismatch, b[HeaderSize..], f.(stats := f.stats.(crcErrors := Inc32(f.stats.crcErrors))))
          else Fetched(Ok, b[HeaderSize..], f.(stats := Read(f.stats, nowMs)))
      else
        var b := GetBytes(f.entries[key], size);
        if |b| != size then Fetched(ReadFailed, b, f)
        else Fetched(Ok, b, f.(stats := Read(f.stats, nowMs)))
  }

  /**
   * A record saved without error is loaded back unchanged, whether or not it
   * was saved with a header, as long as it is read with the same setting
   * before its key is written again; the load counts as one read.
   */
  lemma SaveLoadRoundTrip(f: Flash, key: string, data: seq<byte>, useHeader: bool, nvsOk: bool, saved: u32, now: u32)
    requires |data| >= 1
    requires SaveOp(f, key, data, useHeader, true, nvsOk, saved).status == Ok
    ensures var g := SaveOp(f, key, data, useHeader, true, nvsOk, saved).flash;
      var r := LoadOp(g, key, |data|, useHeader, true, now);
      r.status == Ok && r.copied == data && r.flash.stats == Read(g.stats, now)
  {
    if useHeader {
      var h := Header(CrcValue(data), Version, |data| % U32_LIMIT, saved / 1000);
      HeaderRoundTrip(h, data);
    }
  }

  /**
   * The order of load's checks on a blob that holds a header and a record of
   * the requested size: a version other than 1 is reported first and copies
   * nothing; then a CRC that does not match the record, after the record has
   * been copied.
   */
  lemma LoadChecksHeader(f: Flash, key: string, h: Header, data: seq<byte>, now: u32)
    requires |data| >= 1 && Refusal(f, key, true).None?
    requires key in f.entries && f.entries[key] == Blob(EncodeHeader(h) + data)
    ensures var r := LoadOp(f, key, |data|, true, true, now);
      (r.status == VersionMismatch <==> h.version != Version)
      && (r.status == CrcMismatch <==> h.version == Version && h.crc != CrcValue(data))
      && (r.status == Ok <==> h.version == Version && h.crc == CrcValue(data))
      && (r.status != VersionMismatch ==> r.copied == data)
  {
    HeaderRoundTrip(h, data);
    var b := EncodeHeader(h) + data;
    assert GetBytes(f.entries[key], HeaderSize + |data|) == b;
    assert b[HeaderSize..] == data;
  }

  /**
   * Each outcome of those checks counts in its own statistic: a version
   * mismatch, a CRC mismatch, or a read; no other counter moves.
   */
  lemma LoadCountsHeader(f: Flash, key: string, h: Header, data: seq<byte>, now: u32)
    requires |data| >= 1 && Refusal(f, key, true).None?
    requires key in f.entries && f.entries[key] == Blob(EncodeHeader(h) + data)
    ensures var r, s := LoadOp(f, key, |data|, true, true, now), f.stats;
      r.flash.stats == (if r.status == VersionMismatch then s.(versionMismatches := Inc32(s.versionMismatches))
        else if r.status == CrcMismatch then s.(crcErrors := Inc32(s.crcErrors))
        else Read(s, now))
  {
    HeaderRoundTrip(h, data);
    var b := EncodeHeader(h) + data;
    assert GetBytes(f.entries[key], HeaderSize + |data|) == b;
    assert DecodeHeader(b) == h;
    assert b[HeaderSize..] == data;
    if h.version != Version {
    } else if CrcValue(data) != h.crc {
    } else {
    }
  }

  /**
   * A blob that is not exactly a header and a record of the requested size
   * is READ_FAILED whatever its header says; no statistic changes.
   */
  lemma LoadWrongSize(f: Flash, key: string, size: nat, stored: seq<byte>, now: u32)
    requires size >= 1 && Refusal(f, key, true).None?
    requires key in f.entries && f.entries[key] == Blob(stored) && |stored| != HeaderSize + size
    ensures var r := LoadOp(f, key, size, true, true, now);
      r.status == ReadFailed && r.copied == [] && r.flash == f
  {
  }

  /**
   * A load without a header from a shorter blob fails but has already
   * copied the blob to the front of the caller's record.
   */
  lemma LoadShortBlob(f: Flash, key: string, size: nat, stored: seq<byte>, now: u32)
    requires size >= 1 && Refusal(f, key, true).None?
    requires key in f.entries && f.entries[key] == Blob(stored) && |stored| < size
    ensures var r := LoadOp(f, key, size, false, true, now);
      r.status == ReadFailed && r.copied == stored && r.flash == f
  {
  }

  /**
   * The typed saves: saveString refuses a String longer than 512 characters
   * before taking the mutex; the others go straight to the put.
   */
  function SaveValueOp(f: Flash, key: string, v: Value, locked: bool, nvsOk: bool, nowMs: u32): (r: Saved)
    ensures r.status == Ok ==> r.flash.entries == f.entries[key := v] && r.flash.stats == Wrote(f.stats, nowMs)
    ensures r.status != Ok ==> r.flash.stats == f.stats
    ensures r.flash.initialized == f.initialized && r.flash.readOnly == f.readOnly
  {
    if !f.initialized then Saved(NotInitialized, f)
    else if |key| > MaxKeyLength then Saved(KeyTooLong, f)
    else if v.Text? && |v.text| > MaxStringLength then Saved(SizeTooLarge, f)
    else if !locked then Saved(Timeout, f)
    else Put(f, key, v, nvsOk, nowMs)
  }

  /** The result of a typed load: its status, the value it yields, and the state it leaves. */
  datatype Loaded = Loaded(status: Status, value: Value, flash: Flash)

  /**
   * The typed loads into a caller's variable (loadString, loadInt, loadUInt,
   * loadBool with a reference): a missing key is KEY_NOT_FOUND and leaves the
   * variable as it was; a key of another type yields the type's zero.
   * `current` is the variable's value before the call.
   */
  function LoadValueOp(f: Flash, key: string, current: Value, locked: bool, nowMs: u32): (r: Loaded)
    requires !current.Blob?
    ensures r.flash.entries == f.entries && r.flash.initialized == f.initialized
    ensures r.status == Ok ==> r.flash.stats == Read(f.stats, nowMs)
    ensures r.status != Ok ==> r.value == current && r.flash == f
    ensures SameType(r.value, current)
  {
    match Refusal(f, key, locked)
    case Some(s) => Loaded(s, current, f)
    case None =>
      if key !in f.entries then Loaded(KeyNotFound, current, f)
      else Loaded(Ok, Get(Some(f.entries[key]), Zero(current)), f.(stats := Read(f.stats, nowMs)))
  }

  /** The zero of a value's type, which the reference loads ask the getters for. */
  function Zero(v: Value): (z: Value)
    ensures SameType(z, v)
  {
    match v
    case Blob(_) => Blob([])
    case Text(_) => Text("")
    case Int(_) => Int(0)
    case UInt(_) => UInt(0)
    case Flag(_) => Flag(false)
  }

  /**
   * The typed loads with a default: any refusal yields the default and
   * changes nothing; otherwise the getter's result, the default for a
   * missing key included, and the call counts as a read.
   */
  function LoadOrDefaultOp(f: Flash, key: string, default: Value, locked: bool, nowMs: u32): (r: Loaded)
    requires !default.Blob?
    ensures r.flash.entries == f.entries && r.flash.initialized == f.initialized
    ensures Refusal(f, key, locked).Some? ==> r.value == default && r.flash == f
    ensures Refusal(f, key, locked).None? ==> r.flash.stats == Read(f.stats, nowMs)
    ensures SameType(r.value, default)
  {
    match Refusal(f, key, locked)
    case Some(_) => Loaded(Ok, default, f)
    case None =>
      var v := if key in f.entries then Some(f.entries[key]) else None;
      Loaded(Ok, Get(v, default), f.(stats := Read(f.stats, nowMs)))
  }

  /**
   * A value saved without error is what both kinds of typed load return for
   * its key, whatever the caller's variable or default held.
   */
  lemma ValueRoundTrip(f: Flash, key: string, v: Value, nvsOk: bool, saved: u32, now: u32, other: Value)
    requires !v.Blob? && SameType(v, other)
    requires SaveValueOp(f, key, v, true, nvsOk, saved).status == Ok
    ensures var g := SaveValueOp(f, key, v, true, nvsOk, saved).flash;
      var r, d := LoadValueOp(g, key, other, true, now), LoadOrDefaultOp(g, key, other, true, now);
      r.status == Ok && r.value == v && d.value == v
  {
  }

  /** A key that is not stored leaves the caller's variable alone, and the default is returned. */
  lemma MissingKey(f: Flash, key: string, v: Value, now: u32)
    requires !v.Blob? && Refusal(f, key, true).None? && key !in f.entries
    ensures LoadValueOp(f, key, v, true, now) == Loaded(KeyNotFound, v, f)
    ensures LoadOrDefaultOp(f, key, v, true, now).value == v
  {
  }

  /**
   * Saving the empty String stores it, but Preferences reports writing 0
   * bytes, so saveString returns WRITE_FAILED and counts no write.
   */
  lemma EmptyStringReported(f: Flash, key: string, nowMs: u32)
    requires Refusal(f, key, true).None? && !f.readOnly
    ensures var r := SaveValueOp(f, key, Text(""), true, true, nowMs);
      r.status == WriteFailed && r.flash.entries == f.entries[key := Text("")] && r.flash.stats == f.stats
  {
  }

  /** exists: false on any refusal, otherwise whether the key is stored. */
  function KeyExists(f: Flash, key: string, locked: bool): (r: bool)
    ensures r <==> Refusal(f, key, locked).None? && key in f.entries
  {
    Refusal(f, key, locked).None? && key in f.entries
  }

  /** remove: the checks, then an erase that fails when read-only, on a driver error or for a key that is not stored. */
  function RemoveOp(f: Flash, key: string, locked: bool, nvsOk: bool): (r: Saved)
    ensures r.status == Ok <==> Refusal(f, key, locked).None? && !f.readOnly && nvsOk && key in f.entries
    ensures r.flash == (if r.status == Ok then f.(entries := f.entries - {key}) else f)
  {
    match Refusal(f, key, locked)
    case Some(s) => Saved(s, f)
    case None =>
      if f.readOnly || !nvsOk || key !in f.entries then Saved(WriteFailed, f)
      else Saved(Ok, f.(entries := f.entries - {key}))
  }

  /** After a successful remove the key no longer exists and its loads fail with KEY_NOT_FOUND. */
  lemma RemoveForgets(f: Flash, key: string, nvsOk: bool, v: Value, now: u32)
    requires !v.Blob? && RemoveOp(f, key, true, nvsOk).status == Ok
    ensures var g := RemoveOp(f, key, true, nvsOk).flash;
      !KeyExists(g, key, true) && LoadValueOp(g, key, v, true, now).status == KeyNotFound
  {
  }

  /** clear: no key check; the whole namespace is erased unless read-only or the driver fails. */
  function ClearOp(f: Flash, locked: bool, nvsOk: bool): (r: Saved)
    ensures r.status == Ok ==> r.flash.entries == map[]
    ensures r.status != Ok ==> r.flash == f
    ensures r.flash.stats == f.stats
  {
    if !f.initialized then Saved(NotInitialized, f)
    else if !locked then Saved(Timeout, f)
    else if f.readOnly || !nvsOk then Saved(WriteFailed, f)
    else Saved(Ok, f.(entries := map[]))
  }

  // ---------------------------------------------------------------------------
  // The manager
  // ---------------------------------------------------------------------------

  /** FlashStorageManager: its flags, namespace, statistics and the entries of its namespace. */
  class FlashStorageManager {
    var initialized: bool
    var readOnly: bool
    var mutexCreated: bool
    var namespaceName: string
    var entries: map<string, Value>
    var stats: Stats

    /** An initialised manager has its mutex and a namespace name NVS accepts. */
    predicate Valid()
      reads this
    {
      initialized ==> mutexCreated && 1 <= |namespaceName| <= MaxKeyLength
    }

    function State(): (f: Flash)
      reads this
      ensures f.entries == entries && f.stats == stats
    {
      Flash(initialized, readOnly, entries, stats)
    }

    /** The constructor: not initialised, no mutex, empty namespace, zeroed statistics; `entries` is what the flash holds. */
    constructor (entries: map<string, Value>)
      ensures Valid() && !initialized && !readOnly && !mutexCreated && namespaceName == []
      ensures this.entries == entries && stats == NoStats
    {
      initialized := false;
      readOnly := false;
      mutexCreated := false;
      namespaceName := [];
      this.entries := entries;
      stats := NoStats;
    }

    /**
     * begin: a second call succeeds and changes nothing; a missing or empty
     * namespace is NOT_INITIALIZED and one longer than 15 is KEY_TOO_LONG;
     * then the mutex is created and the name and mode recorded, and opening
     * the namespace decides the outcome.
     */
    method Begin(ns: Option<string>, ro: bool, mutexOk: bool, prefsOk: bool) returns (status: Status)
      requires Valid()
      modifies this
      ensures Valid() && entries == old(entries) && stats == old(stats)
      ensures old(initialized) ==> status == Ok && initialized && readOnly == old(readOnly) && namespaceName == old(namespaceName)
      ensures !old(initialized) ==>
        (ns.None? || ns.value == [] ==> status == NotInitialized)
        && (ns.Some? && |ns.value| > MaxKeyLength ==> status == KeyTooLong)
        && (status == Ok <==> ns.Some? && 1 <= |ns.value| <= MaxKeyLength && mutexOk && prefsOk)
        && (ns.Some? && 1 <= |ns.value| <= MaxKeyLength && mutexOk ==> namespaceName == ns.value && readOnly == ro)
        && initialized == (status == Ok)
    {
      if initialized {
        return Ok;
      }
      if ns.None? || ns.value == [] {
        return NotInitialized;
      }
      if |ns.value| > MaxKeyLength {
        return KeyTooLong;
      }
      if !mutexOk {
        return NotInitialized;
      }
      mutexCreated := true;
      namespaceName := ns.value;
      readOnly := ro;
      if !prefsOk {
        mutexCreated := false;
        return NotInitialized;
      }
      initialized := true;
      status := Ok;
    }

    /** end: closes the namespace and deletes the mutex. */
    method End()
      requires Valid()
      modifies this
      ensures Valid() && !initialized && !mutexCreated
      ensures entries == old(entries) && stats == old(stats) && readOnly == old(readOnly)
    {
      initialized := false;
      mutexCreated := false;
    }

    /** save<T>: `data` is the record's object representation. */
    method Save(key: string, data: seq<byte>, useHeader: bool, locked: bool, nvsOk: bool, nowMs: u32) returns (status: Status)
      requires Valid() && |data| >= 1
      modifies this
      ensures Valid() && Saved(status, State()) == SaveOp(old(State()), key, data, useHeader, locked, nvsOk, nowMs)
      ensures namespaceName == old(namespaceName) && mutexCreated == old(mutexCreated)
    {
      if !initialized {
        return NotInitialized;
      }
      if |key| > MaxKeyLength {
        return KeyTooLong;
      }
      if !locked {
        return Timeout;
      }
      var blob := data;
      if useHeader {
        var crc := ComputeCrc(data);
        var header := Header(crc, Version, |data| % U32_LIMIT, nowMs / 1000);
        blob := EncodeHeader(header) + data;
      }
      var written := 0;
      if !readOnly && nvsOk {
        entries := entries[key := Blob(blob)];
        written := |blob|;
      }
      if written != |blob| {
        return WriteFailed;
      }
      stats := Wrote(stats, nowMs);
      status := Ok;
    }

    /** load<T>: `data` is the caller's record, overwritten by what is copied out. */
    method Load(key: string, data: array<byte>, useHeader: bool, locked: bool, nowMs: u32) returns (status: Status)
      requires Valid() && data.Length >= 1
      modifies this, data
      ensures Valid() && namespaceName == old(namespaceName) && mutexCreated == old(mutexCreated)
      ensures var r := LoadOp(old(State()), key, data.Length, useHeader, locked, nowMs);
        status == r.status && State() == r.flash && data[..] == r.copied + old(data[..])[|r.copied|..]
    {
      if !initialized {
        return NotInitialized;
      }
      if |key| > MaxKeyLength {
        return KeyTooLong;
      }
      if !locked {
        return Timeout;
      }
      if key !in entries {
        return KeyNotFound;
      }
      if useHeader {
        var buffer := GetBytes(entries[key], HeaderSize + data.Length);
        if |buffer| != HeaderSize + data.Length {
          return ReadFailed;
        }
        var header := DecodeHeader(buffer);
        if header.version != Version {
          stats := stats.(versionMismatches := Inc32(stats.versionMismatches));
          return VersionMismatch;
        }
        forall i | 0 <= i < data.Length {
          data[i] := buffer[HeaderSize + i];
        }
        assert data[..] == buffer[HeaderSize..];
        var crc := ComputeCrc(data[..]);
        if crc != header.crc {
          stats := stats.(crcErrors := Inc32(stats.crcErrors));
          return CrcMismatch;
        }
        stats := Read(stats, nowMs);
      } else {
        var read := GetBytes(entries[key], data.Length);
        forall i | 0 <= i < |read| {
          data[i] := read[i];
        }
        if |read| != data.Length {
          return ReadFailed;
        }
        stats := Read(stats, nowMs);
      }
      status := Ok;
    }

    /** The typed saves: saveString, saveInt, saveUInt and saveBool, by the type of `v`. */
    method SaveValue(key: string, v: Value, locked: bool, nvsOk: bool, nowMs: u32) returns (status: Status)
      requires Valid() && !v.Blob?
      modifies this
      ensures Valid() && Saved(status, State()) == SaveValueOp(old(State()), key, v, locked, nvsOk, nowMs)
      ensures namespaceName == old(namespaceName) && mutexCreated == old(mutexCreated)
    {
      if !initialized {
        return NotInitialized;
      }
      if |key| > MaxKeyLength {
        return KeyTooLong;
      }
      if v.Text? && |v.text| > MaxStringLength {
        return SizeTooLarge;
      }
      if !locked {
        return Timeout;
      }
      var written := 0;
      if !readOnly && nvsOk {
        entries := entries[key := v];
        written := Reported(v);
      }
      if written == 0 {
        return WriteFailed;
      }
      stats := Wrote(stats, nowMs);
      status := Ok;
    }

    /**
     * The typed loads into a caller's variable: loadString, loadInt,
     * loadUInt and loadBool with a reference.  `result` is the variable
     * afterwards, `current` before.
     */
    method LoadValue(key: string, current: Value, locked: bool, nowMs: u32) returns (status: Status, result: Value)
      requires Valid() && !current.Blob?
      modifies this
      ensures Valid() && namespaceName == old(namespaceName) && mutexCreated == old(mutexCreated)
      ensures Loaded(status, result, State()) == LoadValueOp(old(State()), key, current, locked, nowMs)
    {
      result := current;
      if !initialized {
        return NotInitialized, result;
      }
      if |key| > MaxKeyLength {
        return KeyTooLong, result;
      }
      if !locked {
        return Timeout, result;
      }
      if key !in entries {
        return KeyNotFound, result;
      }
      result := Get(Some(entries[key]), Zero(current));
      stats := Read(stats, nowMs);
      status := Ok;
    }

    /** The typed loads with a default: loadString, loadInt, loadUInt and loadBool returning a value. */
    method LoadOrDefault(key: string, default: Value, locked: bool, nowMs: u32) returns (result: Value)
      requires Valid() && !default.Blob?
      modifies this
      ensures Valid() && namespaceName == old(namespaceName) && mutexCreated == old(mutexCreated)
      ensures var r := LoadOrDefaultOp(old(State()), key, default, locked, nowMs);
        result == r.value && State() == r.flash
    {
      if !initialized || |key| > MaxKeyLength || !locked {
        return default;
      }
      result := Get(if key in entries then Some(entries[key]) else None, default);
      stats := Read(stats, nowMs);
    }

    /** exists. */
    method Exists(key: string, locked: bool) returns (found: bool)
      ensures found == KeyExists(State(), key, locked)
    {
      if !initialized || |key| > MaxKeyLength || !locked {
        return false;
      }
      found := key in entries;
    }

    /** remove. */
    method Remove(key: string, locked: bool, nvsOk: bool) returns (status: Status)
      requires Valid()
      modifies this
      ensures Valid() && namespaceName == old(namespaceName) && mutexCreated == old(mutexCreated)
      ensures Saved(status, State()) == RemoveOp(old(State()), key, locked, nvsOk)
    {
      if !initialized {
        return NotInitialized;
      }
      if |key| > MaxKeyLength {
        return KeyTooLong;
      }
      if !locked {
        return Timeout;
      }
      if readOnly || !nvsOk || key !in entries {
        return WriteFailed;
      }
      entries := entries - {key};
      status := Ok;
    }

    /** clear. */
    method Clear(locked: bool, nvsOk: bool) returns (status: Status)
      requires Valid()
      modifies this
      ensures Valid() && namespaceName == old(namespaceName) && mutexCreated == old(mutexCreated)
      ensures Saved(status, State()) == ClearOp(old(State()), locked, nvsOk)
    {
      if !initialized {
        return NotInitialized;
      }
      if !locked {
        return Timeout;
      }
      if readOnly || !nvsOk {
        return WriteFailed;
      }
      entries := map[];
      status := Ok;
    }

    /** resetStats: every counter and time back to zero; nothing else changes. */
    method ResetStats()
      requires Valid()
      modifies this
      ensures Valid() && stats == NoStats && State() == old(State()).(stats := NoStats)
      ensures namespaceName == old(namespaceName) && mutexCreated == old(mutexCreated)
    {
      stats := NoStats;
    }
  }
}
