/**
 * SerializeProtocol: the snapshot file ("BYDRDB" format) the store is saved to and
 * preloaded from.
 *
 * File layout, as the code writes it:
 *   writeUTF("BYDRDB")            two-byte length 6, then the six ASCII bytes
 *   writeInt(number of entries)    every entry of the map, written or not
 *   per written entry:
 *     writeInt(key byte count), the key's UTF-8 bytes,
 *     writeInt(value length in UTF-16 units), the value's UTF-8 bytes,
 *     one flag byte (0: no expiry, 1: expiry), then writeLong(expiry in epoch seconds).
 * The reader takes the expiry back as epoch milliseconds.
 */
module Persist {
  import opened Wrappers
  import opened JavaIo
  import opened Unicode
  import opened Database

  const MagicHeader: string := "BYDRDB"

  /** The bytes writeUTF(MAGIC_HEADER) produces. */
  const MagicHeaderBytes: seq<Byte> := [0, 6, 66, 89, 68, 82, 68, 66]

  /** The file at the configured dbPath. */
  class CacheFile {
    var bytes: seq<Byte>

    constructor (initial: seq<Byte>)
      ensures bytes == initial
    {
      bytes := initial;
    }
  }

  // ---------------------------------------------------------------------------
  // Writing

  /** writeHeadersToCache: an empty file gets the header, any other file is left as it is. */
  function StampHeader(file: seq<Byte>): seq<Byte>
  {
    if |file| == 0 then MagicHeaderBytes else file
  }

  /** The filter of saveToFile: a non-null value whose expiry is absent or after now. */
  predicate Written(d: Data, now: int)
  {
    d.data.Some? && (d.expiry.None? || d.expiry.value > now)
  }

  /** writeExpiryForValue. */
  function ExpiryBytes(expiry: Option<int>): seq<Byte>
  {
    match expiry
    case None => [0]
    case Some(e) => [1] + WriteLong(e)
  }

  /** saveEntryToFile for a non-null value: key count and bytes, value length and bytes, expiry. */
  function EntryRecord(key: string, value: string, expiry: Option<int>): seq<Byte>
  {
    WriteInt(|Utf8Encode(key)|) + Utf8Encode(key)
      + WriteInt(Utf16Length(value)) + Utf8Encode(value)
      + ExpiryBytes(expiry)
  }

  /** What the loop writes for the entries taken in the given order. */
  function Records(order: seq<string>, m: map<string, Data>, now: int): seq<Byte>
    requires forall k :: k in order ==> k in m
  {
    if order == [] then []
    else
      var key := order[|order| - 1];
      var d := m[key];
      Records(order[..|order| - 1], m, now)
        + (if Written(d, now) then EntryRecord(key, d.data.value, d.expiry) else [])
  }

  /** Entries with a non-null value: the count saveToFile reports as processed. */
  function Processed(order: seq<string>, m: map<string, Data>): nat
    requires forall k :: k in order ==> k in m
  {
    if order == [] then 0
    else Processed(order[..|order| - 1], m) + (if m[order[|order| - 1]].data.Some? then 1 else 0)
  }

  /** Entries left out of the file: the count saveToFile reports as skipped. */
  function Skipped(order: seq<string>, m: map<string, Data>, now: int): (r: nat)
    requires forall k :: k in order ==> k in m
    ensures r <= |order|
  {
    if order == [] then 0
    else Skipped(order[..|order| - 1], m, now) + (if Written(m[order[|order| - 1]], now) then 0 else 1)
  }

  /** order lists every key of keys exactly once: one iteration order of the HashMap. */
  ghost predicate Enumerates(order: seq<string>, keys: set<string>)
  {
    (forall i, j :: 0 <= i < j < |order| ==> order[i] != order[j])
    && (forall k :: k in order <==> k in keys)
  }

  /** The whole file saveToFile writes when the map is iterated in the given order. */
  function SaveImage(order: seq<string>, m: map<string, Data>, now: int): seq<Byte>
    requires forall k :: k in order ==> k in m
  {
    MagicHeaderBytes + WriteInt(|m|) + Records(order, m, now)
  }

  /** One more key in the iteration order adds its record and one to a counter. */
  lemma SaveStep(order: seq<string>, key: string, m: map<string, Data>, now: int)
    requires forall k :: k in order ==> k in m
    requires key in m
    ensures SaveImage(order + [key], m, now)
         == SaveImage(order, m, now)
            + (if Written(m[key], now) then EntryRecord(key, m[key].data.value, m[key].expiry) else [])
    ensures Processed(order + [key], m) == Processed(order, m) + (if m[key].data.Some? then 1 else 0)
    ensures Skipped(order + [key], m, now) == Skipped(order, m, now) + (if Written(m[key], now) then 0 else 1)
  {
    assert (order + [key])[..|order|] == order;
  }

  // ---------------------------------------------------------------------------
  // Reading

  /** One entry as the preload reads it: the raw key and value bytes and the expiry. */
  datatype Put = Put(key: seq<Byte>, value: seq<Byte>, expiry: Option<int>)

  /** How loadDbMapFromCacheFile ends: normally, at a (caught) EOFException, or by throwing. */
  datatype LoadOutcome =
    | Completed          // the announced number of entries was read
    | StoppedAtEndOfFile // EOFException: caught, the method returns normally
    | NotACacheFile      // IllegalAccessError("Invalid File for preload caching")
    | MalformedHeader    // UTFDataFormatException from readUTF
    | NegativeLength     // IllegalArgumentException from readNBytes

  datatype Loaded = Loaded(puts: seq<Put>, outcome: LoadOutcome)

  /** Instant.ofEpochMilli(epoch) as whole seconds (with the system zone at UTC). */
  function ExpiryRead(epoch: int): int
  {
    epoch / 1000
  }

  datatype RecordRead =
    | RecordEndOfFile
    | RecordNegativeLength
    | Record(put: Put, rest: seq<Byte>)

  /** One iteration of the preload loop: the entry it puts, or how it stops. */
  function ReadRecord(s: seq<Byte>): (r: RecordRead)
    ensures r.Record? ==> |r.rest| < |s|
  {
    match ReadInt(s)
    case EndOfFile => RecordEndOfFile
    case Got(keyLength, rest) =>
      if keyLength < 0 then RecordNegativeLength
      else
        var (key, afterKey) := ReadNBytes(rest, keyLength);
        ReadValuePart(key, afterKey)
  }

  /** The value length and bytes of a record whose key has been read. */
  function ReadValuePart(key: seq<Byte>, s: seq<Byte>): (r: RecordRead)
    ensures r.Record? ==> |r.rest| < |s|
  {
    match ReadInt(s)
    case EndOfFile => RecordEndOfFile
    case Got(valueLength, rest) =>
      if valueLength < 0 then RecordNegativeLength
      else
        var (value, afterValue) := ReadNBytes(rest, valueLength);
        ReadExpiryPart(key, value, afterValue)
  }

  /** The expiry flag and timestamp that end a record. */
  function ReadExpiryPart(key: seq<Byte>, value: seq<Byte>, s: seq<Byte>): (r: RecordRead)
    ensures r.Record? ==> |r.rest| < |s|
  {
    match ReadBoolean(s)
    case EndOfFile => RecordEndOfFile
    case Got(hasExpiry, rest) =>
      if hasExpiry then
        match ReadLong(rest)
        case EndOfFile => RecordEndOfFile
        case Got(epoch, afterEpoch) => Record(Put(key, value, Some(ExpiryRead(epoch))), afterEpoch)
      else Record(Put(key, value, None), rest)
  }

  /** The loop while (totalEntries > 0). */
  function ReadRecords(s: seq<Byte>, total: int): Loaded
    decreases if total > 0 then total else 0
  {
    if total <= 0 then Loaded([], Completed)
    else
      match ReadRecord(s)
      case RecordEndOfFile => Loaded([], StoppedAtEndOfFile)
      case RecordNegativeLength => Loaded([], NegativeLength)
      case Record(p, rest) =>
        var more := ReadRecords(rest, total - 1);
        Loaded([p] + more.puts, more.outcome)
  }

  /** loadDbMapFromCacheFile on the given file contents: the puts it makes, in order, and how it ends. */
  function Load(file: seq<Byte>): Loaded
  {
    match ReadUtf(file)
    case UtfEndOfFile => Loaded([], StoppedAtEndOfFile)
    case UtfMalformed => Loaded([], MalformedHeader)
    case UtfGot(units, rest) =>
      if units != Utf16Units(MagicHeader) then Loaded([], NotACacheFile)
      else
        match ReadInt(rest)
        case EndOfFile => Loaded([], StoppedAtEndOfFile)
        case Got(total, entries) => ReadRecords(entries, total)
  }

  /** putValue(new String(key), new String(value), expiry): the bytes decoded as UTF-8. */
  function Apply(m: map<string, Data>, p: Put): map<string, Data>
  {
    m[Utf8Decode(p.key) := Data(p.expiry, Some(Utf8Decode(p.value)))]
  }

  /** The map after the puts, in order. */
  function ApplyAll(m: map<string, Data>, puts: seq<Put>): map<string, Data>
    decreases puts
  {
    if puts == [] then m else ApplyAll(Apply(m, puts[0]), puts[1..])
  }

  // ---------------------------------------------------------------------------
  // The class

  class SerializeProtocol {
    const db: DbMap
    const cache: CacheFile

    constructor (cache: CacheFile, db: DbMap)
      ensures this.db == db && this.cache == cache
    {
      this.db := db;
      this.cache := cache;
    }

    method WriteHeadersToCache()
      modifies cache
      ensures cache.bytes == StampHeader(old(cache.bytes))
    {
      if |cache.bytes| == 0 {
        cache.bytes := MagicHeaderBytes;
      }
    }

    /**
     * saveToFile: the header, the size of the whole map, then one record per written
     * entry in the map's iteration order; the counters it logs are returned.
     */
    method SaveToFile(now: int) returns (processed: nat, skipped: nat)
      modifies cache
      ensures exists order ::
        Enumerates(order, db.entries.Keys)
        && cache.bytes == SaveImage(order, db.entries, now)
        && processed == Processed(order, db.entries)
        && skipped == Skipped(order, db.entries, now)
    {
      var m := db.entries;
      var out := MagicHeaderBytes + WriteInt(|m|);
      processed, skipped := 0, 0;
      var remaining := m.Keys;
      ghost var order: seq<string> := [];
      while remaining != {}
        invariant remaining <= m.Keys
        invariant forall i, j :: 0 <= i < j < |order| ==> order[i] != order[j]
        invariant forall k :: k in order <==> k in m.Keys - remaining
        invariant out == SaveImage(order, m, now)
        invariant processed == Processed(order, m)
        invariant skipped == Skipped(order, m, now)
        decreases remaining
      {
        var key :| key in remaining;
        var d := m[key];
        SaveStep(order, key, m, now);
        if d.data.Some? {
          if d.expiry.None? {
            out := out + EntryRecord(key, d.data.value, d.expiry);
          } else if d.expiry.value > now {
            out := out + EntryRecord(key, d.data.value, d.expiry);
          } else {
            skipped := skipped + 1;
          }
          processed := processed + 1;
        } else {
          skipped := skipped + 1;
        }
        assert key !in order;
        order := order + [key];
        remaining := remaining - {key};
      }
      cache.bytes := out;
      assert Enumerates(order, m.Keys);
    }

    /**
     * loadDbMapFromCacheFile: checks the header, then puts each entry read until the
     * announced count is reached or the file ends; an exception is returned as the outcome.
     */
    method LoadDbMapFromCacheFile() returns (outcome: LoadOutcome)
      modifies db
      ensures outcome == Load(cache.bytes).outcome
      ensures db.entries == ApplyAll(old(db.entries), Load(cache.bytes).puts)
    {
      ghost var L := Load(cache.bytes);
      ghost var m0 := db.entries;
      var header := ReadUtf(cache.bytes);
      if header.UtfEndOfFile? {
        return StoppedAtEndOfFile;
      }
      if header.UtfMalformed? {
        return MalformedHeader;
      }
      if header.units != Utf16Units(MagicHeader) {
        return NotACacheFile;
      }
      var count := ReadInt(header.rest);
      if count.EndOfFile? {
        return StoppedAtEndOfFile;
      }
      var total := count.value;
      var s := count.rest;
      assert L == ReadRecords(s, total);
      while total > 0
        invariant ReadRecords(s, total).outcome == L.outcome
        invariant ApplyAll(db.entries, ReadRecords(s, total).puts) == ApplyAll(m0, L.puts)
        decreases total
      {
        ghost var start := s;
        var keyLength := ReadInt(s);
        if keyLength.EndOfFile? {
          LoadStops(s, total, db.entries);
          return StoppedAtEndOfFile;
        }
        if keyLength.value < 0 {
          LoadStops(s, total, db.entries);
          return NegativeLength;
        }
        var (key, afterKey) := ReadNBytes(keyLength.rest, keyLength.value);
        assert ReadRecord(start) == ReadValuePart(key, afterKey);
        var valueLength := ReadInt(afterKey);
        if valueLength.EndOfFile? {
          LoadStops(s, total, db.entries);
          return StoppedAtEndOfFile;
        }
        if valueLength.value < 0 {
          LoadStops(s, total, db.entries);
          return NegativeLength;
        }
        var (value, afterValue) := ReadNBytes(valueLength.rest, valueLength.value);
        assert ReadRecord(start) == ReadExpiryPart(key, value, afterValue);
        var isExpiryValid := ReadBoolean(afterValue);
        if isExpiryValid.EndOfFile? {
          LoadStops(s, total, db.entries);
          return StoppedAtEndOfFile;
        }
        var expiry: Option<int> := None;
        s := isExpiryValid.rest;
        if isExpiryValid.value {
          var epoch := ReadLong(s);
          if epoch.EndOfFile? {
            LoadStops(start, total, db.entries);
            return StoppedAtEndOfFile;
          }
          expiry := Some(ExpiryRead(epoch.value));
          s := epoch.rest;
        }
        assert ReadRecord(start) == Record(Put(key, value, expiry), s);
        ghost var before, entries := total, db.entries;
        db.PutValue(Utf8Decode(key), Utf8Decode(value), expiry);
        total := total - 1;
        LoadContinues(start, before, Put(key, value, expiry), s, total, entries);
      }
      return Completed;
    }
  }

  /** A record that cannot be read ends the preload with nothing more put. */
  lemma LoadStops(s: seq<Byte>, total: int, m: map<string, Data>)
    requires total > 0 && !ReadRecord(s).Record?
    ensures ReadRecords(s, total).outcome
         == if ReadRecord(s).RecordEndOfFile? then StoppedAtEndOfFile else NegativeLength
    ensures ApplyAll(m, ReadRecords(s, total).puts) == m
  {
  }

  /** A record read as p: p is put, and the loop goes on with one entry fewer. */
  lemma LoadContinues(s: seq<Byte>, total: int, p: Put, rest: seq<Byte>, next: int, m: map<string, Data>)
    requires total > 0 && next == total - 1 && ReadRecord(s) == Record(p, rest)
    ensures ReadRecords(s, total).outcome == ReadRecords(rest, next).outcome
    ensures ApplyAll(m, ReadRecords(s, total).puts) == ApplyAll(Apply(m, p), ReadRecords(rest, next).puts)
  {
    var more := ReadRecords(rest, next);
    assert ReadRecords(s, total) == Loaded([p] + more.puts, more.outcome) by {
      ReadFirstRecord(s, total, p, rest, next);
    }
    ApplyAllCons(m, p, more.puts);
  }

  lemma ReadFirstRecord(s: seq<Byte>, total: int, p: Put, rest: seq<Byte>, next: int)
    requires total > 0 && next == total - 1 && ReadRecord(s) == Record(p, rest)
    ensures ReadRecords(s, total) == Loaded([p] + ReadRecords(rest, next).puts, ReadRecords(rest, next).outcome)
  {
  }

  lemma ApplyAllCons(m: map<string, Data>, p: Put, puts: seq<Put>)
    ensures ApplyAll(m, [p] + puts) == ApplyAll(Apply(m, p), puts)
  {
    assert ([p] + puts)[1..] == puts;
  }

  // ---------------------------------------------------------------------------
  // Properties of the format

  /** The header constant is what writeUTF("BYDRDB") writes, and readUTF takes it back. */
  lemma MagicHeaderReadsBack(tail: seq<Byte>)
    ensures WriteUtf(Utf16Units(MagicHeader)) == Some(MagicHeaderBytes)
    ensures ReadUtf(MagicHeaderBytes + tail) == UtfGot(Utf16Units(MagicHeader), tail)
  {
    MagicHeaderWritten();
    ReadUtfWriteUtf(Utf16Units(MagicHeader), tail);
  }

  lemma MagicHeaderWritten()
    ensures WriteUtf(Utf16Units(MagicHeader)) == Some(MagicHeaderBytes)
  {
    MagicHeaderUnits();
    MagicUnitsWritten();
  }

  lemma MagicUnitsWritten()
    ensures WriteUtf([66, 89, 68, 82, 68, 66]) == Some(MagicHeaderBytes)
  {
    var us: seq<int> := [66, 89, 68, 82, 68, 66];
    assert ModifiedUtf8(us) == us;
    assert WriteShort(6) == [0, 6];
    assert WriteUtf(us) == Some(WriteShort(6) + us);
    assert [0, 6] + us == MagicHeaderBytes;
  }

  lemma MagicHeaderUnits()
    ensures Utf16Units(MagicHeader) == [66, 89, 68, 82, 68, 66]
  {
  }

  /** A freshly stamped file preloads nothing: the count is missing and the EOFException is swallowed. */
  lemma StampedEmptyFileLoadsNothing()
    ensures Load(StampHeader([])) == Loaded([], StoppedAtEndOfFile)
  {
    MagicHeaderReadsBack([]);
    assert MagicHeaderBytes + [] == MagicHeaderBytes;
  }

  /** Stamping twice is stamping once, and a non-empty file is never touched. */
  lemma StampHeaderIdempotent(file: seq<Byte>)
    ensures StampHeader(StampHeader(file)) == StampHeader(file)
    ensures |file| > 0 ==> StampHeader(file) == file
  {
  }

  /** What the preload puts for the records saved in the given order. */
  function SavedPuts(order: seq<string>, m: map<string, Data>, now: int): seq<Put>
    requires forall k :: k in order ==> k in m
  {
    if order == [] then []
    else
      var key := order[|order| - 1];
      var d := m[key];
      SavedPuts(order[..|order| - 1], m, now)
        + (if Written(d, now) then [Put(Utf8Encode(key), Utf8Encode(d.data.value), ReloadedExpiry(d.expiry))] else [])
  }

  /** An expiry as it comes back from the file: seconds read as milliseconds. */
  function ReloadedExpiry(expiry: Option<int>): Option<int>
  {
    match expiry
    case None => None
    case Some(e) => Some(ExpiryRead(e))
  }

  /** The record of an entry reads back when its value is ASCII and its sizes fit the format. */
  predicate Loadable(key: string, d: Data)
  {
    d.data.Some? && IsAscii(d.data.value)
    && IsInt32(|Utf8Encode(key)|) && IsInt32(|d.data.value|)
    && (d.expiry.Some? ==> IsInt64(d.expiry.value))
  }

  lemma ReadEntryRecord(key: string, d: Data, tail: seq<Byte>)
    requires Loadable(key, d)
    ensures ReadRecord(EntryRecord(key, d.data.value, d.expiry) + tail)
         == Record(Put(Utf8Encode(key), Utf8Encode(d.data.value), ReloadedExpiry(d.expiry)), tail)
  {
    ReadEntryBytes(key, d.data.value, ExpiryBytes(d.expiry), tail);
    ReadExpiryRecord(Utf8Encode(key), Utf8Encode(d.data.value), d.expiry, tail);
  }

  lemma ReadEntryBytes(key: string, v: string, E: seq<Byte>, tail: seq<Byte>)
    requires IsInt32(|Utf8Encode(key)|) && IsAscii(v) && IsInt32(|v|)
    ensures ReadRecord(WriteInt(|Utf8Encode(key)|) + Utf8Encode(key)
                       + WriteInt(Utf16Length(v)) + Utf8Encode(v) + E + tail)
         == ReadExpiryPart(Utf8Encode(key), Utf8Encode(v), E + tail)
  {
    AsciiLengths(v);
    ReadFields(Utf8Encode(key), Utf8Encode(v), E, tail);
  }

  /** The key and value fields read back as the bytes that were written. */
  lemma ReadFields(K: seq<Byte>, V: seq<Byte>, E: seq<Byte>, tail: seq<Byte>)
    requires IsInt32(|K|) && IsInt32(|V|)
    ensures ReadRecord(WriteInt(|K|) + K + WriteInt(|V|) + V + E + tail) == ReadExpiryPart(K, V, E + tail)
  {
    var afterKey := WriteInt(|V|) + (V + (E + tail));
    assert WriteInt(|K|) + K + WriteInt(|V|) + V + E + tail == WriteInt(|K|) + (K + afterKey);
    ReadKeyField(K, afterKey);
    ReadValueField(K, V, E + tail);
  }

  lemma ReadKeyField(K: seq<Byte>, rest: seq<Byte>)
    requires IsInt32(|K|)
    ensures ReadRecord(WriteInt(|K|) + (K + rest)) == ReadValuePart(K, rest)
  {
    ReadCountedBytes(|K|, K, rest);
  }

  lemma ReadValueField(K: seq<Byte>, V: seq<Byte>, rest: seq<Byte>)
    requires IsInt32(|V|)
    ensures ReadValuePart(K, WriteInt(|V|) + (V + rest)) == ReadExpiryPart(K, V, rest)
  {
    ReadCountedBytes(|V|, V, rest);
  }

  /** For ASCII text the UTF-16 length, the UTF-8 byte count and the character count agree. */
  lemma AsciiLengths(v: string)
    requires IsAscii(v)
    ensures Utf16Length(v) == |Utf8Encode(v)| == |v|
  {
    Utf16LengthVersusUtf8(v);
    Utf8EncodeAscii(v);
  }

  /** writeInt(n) then n bytes: readInt and readNBytes take back exactly those bytes. */
  lemma ReadCountedBytes(n: int, B: seq<Byte>, rest: seq<Byte>)
    requires |B| == n && IsInt32(n)
    ensures ReadInt(WriteInt(n) + (B + rest)) == Got(n, B + rest)
    ensures ReadNBytes(B + rest, n) == (B, rest)
  {
    ReadIntWriteInt(n, B + rest);
    assert (B + rest)[..n] == B && (B + rest)[n..] == rest;
  }

  lemma ReadExpiryRecord(key: seq<Byte>, v: seq<Byte>, expiry: Option<int>, tail: seq<Byte>)
    requires expiry.Some? ==> IsInt64(expiry.value)
    ensures ReadExpiryPart(key, v, ExpiryBytes(expiry) + tail) == Record(Put(key, v, ReloadedExpiry(expiry)), tail)
  {
    match expiry
    case None =>
      assert ReadBoolean([0] + tail) == Got(false, tail);
    case Some(e) =>
      assert ExpiryBytes(expiry) + tail == [1] + (WriteLong(e) + tail);
      assert ReadBoolean([1] + (WriteLong(e) + tail)) == Got(true, WriteLong(e) + tail);
      ReadLongWriteLong(e, tail);
  }

  /** Number of records saved for the order. */
  function SavedCount(order: seq<string>, m: map<string, Data>, now: int): nat
    requires forall k :: k in order ==> k in m
  {
    |order| - Skipped(order, m, now)
  }

  /** A record that reads as p, in front of bytes that read as Z, gives p then Z. */
  lemma ReadRecordsStep(R: seq<Byte>, p: Put, rest: seq<Byte>, n: int, total: int, Z: Loaded)
    requires ReadRecord(R + rest) == Record(p, rest)
    requires n >= 0 && total == n + 1
    requires ReadRecords(rest, n) == Z
    ensures ReadRecords(R + rest, total) == Loaded([p] + Z.puts, Z.outcome)
  {
  }

  /**
   * The records saved for an order read back as their puts, whatever count the loop
   * still has left beyond them and whatever bytes follow.
   */
  lemma {:induction false} ReadSavedRecords(order: seq<string>, m: map<string, Data>, now: int,
                                           extra: nat, tail: seq<Byte>, total: int)
    requires forall k :: k in order ==> k in m
    requires forall k :: k in order && Written(m[k], now) ==> Loadable(k, m[k])
    requires total == SavedCount(order, m, now) + extra
    ensures ReadRecords(Records(order, m, now) + tail, total)
         == Loaded(SavedPuts(order, m, now) + ReadRecords(tail, extra).puts, ReadRecords(tail, extra).outcome)
    decreases |order|, 1
  {
    if order == [] {
      var Y := ReadRecords(tail, extra);
      assert Records(order, m, now) + tail == tail;
      assert total == extra;
      assert SavedPuts(order, m, now) + Y.puts == Y.puts;
    } else if Written(m[order[|order| - 1]], now) {
      ReadSavedWritten(order, m, now, extra, tail, total);
    } else {
      var init := order[..|order| - 1];
      ReadSavedRecords(init, m, now, extra, tail, total);
      assert Records(order, m, now) == Records(init, m, now);
      assert SavedPuts(order, m, now) == SavedPuts(init, m, now);
    }
  }

  /** ReadSavedRecords when the last key of the order was written. */
  lemma {:induction false} ReadSavedWritten(order: seq<string>, m: map<string, Data>, now: int,
                                           extra: nat, tail: seq<Byte>, total: int)
    requires forall k :: k in order ==> k in m
    requires order != [] && Written(m[order[|order| - 1]], now)
    requires forall k :: k in order && Written(m[k], now) ==> Loadable(k, m[k])
    requires total == SavedCount(order, m, now) + extra
    ensures ReadRecords(Records(order, m, now) + tail, total)
         == Loaded(SavedPuts(order, m, now) + ReadRecords(tail, extra).puts, ReadRecords(tail, extra).outcome)
    decreases |order|, 0
  {
    var Y := ReadRecords(tail, extra);
    var init, key := order[..|order| - 1], order[|order| - 1];
    var d := m[key];
    assert key in order;
    var R := EntryRecord(key, d.data.value, d.expiry);
    var p := Put(Utf8Encode(key), Utf8Encode(d.data.value), ReloadedExpiry(d.expiry));
    ReadSavedRecords(init, m, now, extra + 1, R + tail, total);
    ReadEntryRecord(key, d, tail);
    ReadAppendedRecord(Records(init, m, now), SavedPuts(init, m, now), R, p, tail, extra, total);
    assert Records(order, m, now) == Records(init, m, now) + R;
    assert SavedPuts(order, m, now) == SavedPuts(init, m, now) + [p];
  }

  /** Records that read as puts, then one more record that reads as p: the puts, then p. */
  lemma ReadAppendedRecord(B: seq<Byte>, puts: seq<Put>, R: seq<Byte>, p: Put, tail: seq<Byte>,
                           extra: nat, total: int)
    requires ReadRecord(R + tail) == Record(p, tail)
    requires ReadRecords(B + (R + tail), total)
          == Loaded(puts + ReadRecords(R + tail, extra + 1).puts, ReadRecords(R + tail, extra + 1).outcome)
    ensures ReadRecords((B + R) + tail, total)
         == Loaded((puts + [p]) + ReadRecords(tail, extra).puts, ReadRecords(tail, extra).outcome)
  {
    var Y := ReadRecords(tail, extra);
    ReadRecordsStep(R, p, tail, extra, extra + 1, Y);
    assert (B + R) + tail == B + (R + tail) by { SeqAssoc(B, R, tail); }
    assert puts + ([p] + Y.puts) == (puts + [p]) + Y.puts by { SeqAssoc(puts, [p], Y.puts); }
  }

  /**
   * Loading a saved file replays the written entries in the order they were saved. It
   * completes when nothing was skipped; otherwise the size written is larger than the
   * number of records and the preload stops at the end of the file.
   */
  lemma LoadSaveImage(order: seq<string>, m: map<string, Data>, now: int)
    requires Enumerates(order, m.Keys) && IsInt32(|m|)
    requires forall k :: k in m && Written(m[k], now) ==> Loadable(k, m[k])
    ensures Load(SaveImage(order, m, now)).puts == SavedPuts(order, m, now)
    ensures Load(SaveImage(order, m, now)).outcome
         == if Skipped(order, m, now) == 0 then Completed else StoppedAtEndOfFile
  {
    EnumerationSize(order, m.Keys);
    var records := Records(order, m, now);
    assert SaveImage(order, m, now) == MagicHeaderBytes + (WriteInt(|m|) + records);
    LoadImageBytes(|m|, records);
    ReadSavedRecords(order, m, now, Skipped(order, m, now), [], |m|);
    assert records + [] == records;
    ReadNothing(Skipped(order, m, now));
    assert SavedPuts(order, m, now) + [] == SavedPuts(order, m, now);
  }

  /** Behind the header and a count, the file is read as that many records. */
  lemma LoadImageBytes(n: int, R: seq<Byte>)
    requires IsInt32(n)
    ensures Load(MagicHeaderBytes + (WriteInt(n) + R)) == ReadRecords(R, n)
  {
    MagicHeaderReadsBack(WriteInt(n) + R);
    ReadIntWriteInt(n, R);
  }

  /** With no bytes left the loop completes only if it expects no more entries. */
  lemma ReadNothing(n: int)
    ensures ReadRecords([], n) == Loaded([], if n <= 0 then Completed else StoppedAtEndOfFile)
  {
  }

  lemma {:induction false} EnumerationSize(order: seq<string>, keys: set<string>)
    requires Enumerates(order, keys)
    ensures |order| == |keys|
  {
    if order != [] {
      var init, key := order[..|order| - 1], order[|order| - 1];
      assert key in keys;
      assert Enumerates(init, keys - {key}) by {
        forall k
          ensures k in init <==> k in keys - {key}
        {
          if k in init {
            var i :| 0 <= i < |init| && init[i] == k;
            assert order[i] == k;
          }
          if k in keys - {key} {
            assert k in order;
            var i :| 0 <= i < |order| && order[i] == k;
            assert i < |order| - 1;
            assert init[i] == k;
          }
        }
      }
      EnumerationSize(init, keys - {key});
    }
  }

  /** The store rebuilt from the puts of a save: the written entries, expiries read back. */
  function Restored(order: seq<string>, m: map<string, Data>, now: int): map<string, Data>
    requires forall k :: k in order ==> k in m
  {
    map k | k in order && Written(m[k], now) :: Data(ReloadedExpiry(m[k].expiry), m[k].data)
  }

  lemma {:induction false} ApplyAllSnoc(m0: map<string, Data>, puts: seq<Put>, p: Put)
    ensures ApplyAll(m0, puts + [p]) == Apply(ApplyAll(m0, puts), p)
    decreases puts
  {
    if puts == [] {
      assert puts + [p] == [p];
    } else {
      assert (puts + [p])[1..] == puts[1..] + [p];
      ApplyAllSnoc(Apply(m0, puts[0]), puts[1..], p);
    }
  }

  lemma {:induction false} ApplySavedPuts(order: seq<string>, m: map<string, Data>, now: int)
    requires forall k :: k in order ==> k in m
    ensures ApplyAll(map[], SavedPuts(order, m, now)) == Restored(order, m, now)
  {
    if order != [] {
      var init, key := order[..|order| - 1], order[|order| - 1];
      var d := m[key];
      ApplySavedPuts(init, m, now);
      RestoredStep(order, m, now);
      if Written(d, now) {
        var p := Put(Utf8Encode(key), Utf8Encode(d.data.value), ReloadedExpiry(d.expiry));
        assert SavedPuts(order, m, now) == SavedPuts(init, m, now) + [p];
        ApplyAllSnoc(map[], SavedPuts(init, m, now), p);
        Utf8DecodeEncode(key);
        Utf8DecodeEncode(d.data.value);
      } else {
        assert SavedPuts(order, m, now) == SavedPuts(init, m, now);
      }
    }
  }

  lemma RestoredStep(order: seq<string>, m: map<string, Data>, now: int)
    requires order != [] && forall k :: k in order ==> k in m
    ensures var init, key := order[..|order| - 1], order[|order| - 1];
      Restored(order, m, now)
      == if Written(m[key], now) then Restored(init, m, now)[key := Data(ReloadedExpiry(m[key].expiry), m[key].data)]
         else Restored(init, m, now)
  {
    var init, key := order[..|order| - 1], order[|order| - 1];
    assert forall k :: k in order <==> k in init || k == key;
  }

  /**
   * Saving at time now and preloading into an empty store gives back exactly the
   * entries that were live after now and had a value, with their values; an expiry e
   * comes back as e / 1000.
   */
  lemma SaveThenLoad(order: seq<string>, m: map<string, Data>, now: int)
    requires Enumerates(order, m.Keys) && IsInt32(|m|)
    requires forall k :: k in m && Written(m[k], now) ==> Loadable(k, m[k])
    ensures ApplyAll(map[], Load(SaveImage(order, m, now)).puts)
         == map k | k in m && Written(m[k], now) :: Data(ReloadedExpiry(m[k].expiry), m[k].data)
  {
    LoadSaveImage(order, m, now);
    ApplySavedPuts(order, m, now);
  }

  /**
   * Because the expiry is written in seconds and read as milliseconds, a saved entry
   * that is still live at time t (t <= e) is already expired once reloaded, as soon as
   * t is past e / 1000.
   */
  lemma ReloadedEntryExpiresEarly(order: seq<string>, m: map<string, Data>, now: int, key: string, t: int)
    requires Enumerates(order, m.Keys) && IsInt32(|m|)
    requires forall k :: k in m && Written(m[k], now) ==> Loadable(k, m[k])
    requires key in m && Written(m[key], now) && m[key].expiry.Some?
    requires m[key].expiry.value / 1000 < t <= m[key].expiry.value
    ensures Lookup(m, key, t) == m[key].data
    ensures Lookup(ApplyAll(map[], Load(SaveImage(order, m, now)).puts), key, t) == None
  {
    SaveThenLoad(order, m, now);
  }

  /** An entry live at now whose expiry is exactly now is still readable, yet not saved. */
  lemma ExpiryAtNowNotSaved(d: Data, now: int)
    requires d.data.Some? && d.expiry == Some(now)
    ensures !IsExpired(d, now) && !Written(d, now)
  {
  }

  /**
   * A value with a non-ASCII character announces its UTF-16 length, which is shorter
   * than its UTF-8 bytes: the reader falls out of step, here reading the second byte
   * of the value as the expiry flag, and the entry is lost.
   */
  lemma NonAsciiValueLost(now: int)
    ensures Load(SaveImage(["k"], map["k" := Data(None, Some("\U{E9}"))], now))
         == Loaded([], StoppedAtEndOfFile)
  {
    var m := map["k" := Data(None, Some("\U{E9}"))];
    var records := WriteInt(1) + ([107] + (WriteInt(1) + [0xC3, 0xA9, 0]));
    NonAsciiRecordBytes(m, now);
    MagicHeaderReadsBack(WriteInt(1) + records);
    assert SaveImage(["k"], m, now) == MagicHeaderBytes + (WriteInt(1) + records);
    ReadIntWriteInt(1, records);
    NonAsciiRecordStops();
  }

  /** The record saved for "k" -> "\U{E9}": the value's length 1 is followed by its two UTF-8 bytes. */
  lemma NonAsciiRecordBytes(m: map<string, Data>, now: int)
    requires m == map["k" := Data(None, Some("\U{E9}"))]
    ensures Records(["k"], m, now) == WriteInt(1) + ([107] + (WriteInt(1) + [0xC3, 0xA9, 0]))
  {
    assert Records(["k"], m, now) == Records([], m, now) + EntryRecord("k", "\U{E9}", None);
    NonAsciiEntryRecord();
  }

  lemma NonAsciiEntryRecord()
    ensures EntryRecord("k", "\U{E9}", None) == WriteInt(1) + ([107] + (WriteInt(1) + [0xC3, 0xA9, 0]))
  {
    NonAsciiEncodings();
  }

  lemma NonAsciiEncodings()
    ensures Utf8Encode("k") == [107]
    ensures Utf8Encode("\U{E9}") == [0xC3, 0xA9]
    ensures Utf16Length("\U{E9}") == 1
  {
  }

  /** Reading that record takes 0xA9 as the expiry flag and then finds no eight bytes left. */
  lemma NonAsciiRecordStops()
    ensures ReadRecord(WriteInt(1) + ([107] + (WriteInt(1) + [0xC3, 0xA9, 0]))) == RecordEndOfFile
  {
    var v: seq<Byte> := [0xC3, 0xA9, 0];
    ReadKeyField([107], WriteInt(1) + v);
    ReadIntWriteInt(1, v);
    assert v[..1] == [0xC3] && v[1..] == [0xA9, 0];
    assert ReadBoolean([0xA9, 0]) == Got(true, [0]);
  }

  /** The key a put stores under. */
  function PutKey(p: Put): string
  {
    Utf8Decode(p.key)
  }

  /** When a key is put twice in the file the later put wins. */
  lemma {:induction false} LastPutWins(m0: map<string, Data>, puts: seq<Put>, i: int)
    requires 0 <= i < |puts|
    requires forall j :: i < j < |puts| ==> PutKey(puts[j]) != PutKey(puts[i])
    ensures PutKey(puts[i]) in ApplyAll(m0, puts)
    ensures ApplyAll(m0, puts)[PutKey(puts[i])] == Data(puts[i].expiry, Some(Utf8Decode(puts[i].value)))
    decreases puts
  {
    if i == 0 {
      UntouchedKeyKept(Apply(m0, puts[0]), puts[1..], PutKey(puts[0]));
    } else {
      LastPutWins(Apply(m0, puts[0]), puts[1..], i - 1);
    }
  }

  /** A key the file never puts keeps what the store had before the preload. */
  lemma {:induction false} UntouchedKeyKept(m0: map<string, Data>, puts: seq<Put>, key: string)
    requires forall j :: 0 <= j < |puts| ==> PutKey(puts[j]) != key
    ensures key in ApplyAll(m0, puts) <==> key in m0
    ensures key in m0 ==> ApplyAll(m0, puts)[key] == m0[key]
    decreases puts
  {
    if puts != [] {
      UntouchedKeyKept(Apply(m0, puts[0]), puts[1..], key);
    }
  }

  /**
   * The two logged counters overlap: an entry with a value that is skipped as expired
   * counts as processed and as skipped.
   */
  lemma {:induction false} CountersOverlap(order: seq<string>, m: map<string, Data>, now: int)
    requires forall k :: k in order ==> k in m
    ensures Processed(order, m) + Skipped(order, m, now) >= |order|
    ensures Processed(order, m) + Skipped(order, m, now) == |order|
        <==> forall k :: k in order && m[k].data.Some? ==> Written(m[k], now)
  {
    if order != [] {
      var init := order[..|order| - 1];
      CountersOverlap(init, m, now);
      assert forall k :: k in order <==> k in init || k == order[|order| - 1];
    }
  }
}
