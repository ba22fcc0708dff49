/**
 * The in-memory key-value store (DbMap): a map from key to Data, where Data is a
 * value with an optional absolute expiry. Expired entries are evicted lazily, by the
 * read that finds them; writes replace unconditionally.
 *
 * Time is a whole number of seconds since the epoch, passed in by the caller in
 * place of LocalDateTime.now().
 */
module Database {
  import opened Wrappers

  /** The record DbMap.Data: an optional expiry and a value that may be null. */
  datatype Data = Data(expiry: Option<int>, data: Option<string>)

  /** expiry.isBefore(now): an expiry equal to now still counts as live. */
  predicate IsExpired(d: Data, now: int)
  {
    d.expiry.Some? && d.expiry.value < now
  }

  /** What a read of key at time now answers. */
  function Lookup(m: map<string, Data>, key: string, now: int): Option<string>
  {
    if key in m && !IsExpired(m[key], now) then m[key].data else None
  }

  /** The map after a read of key at time now: an expired entry is gone, nothing else changes. */
  function Evict(m: map<string, Data>, key: string, now: int): map<string, Data>
  {
    if key in m && IsExpired(m[key], now) then m - {key} else m
  }

  class DbMap {
    var entries: map<string, Data>

    constructor ()
      ensures entries == map[]
    {
      entries := map[];
    }

    /** getValue: the value when present and not expired; an expired entry found is removed. */
    method GetValue(key: string, now: int) returns (r: Option<string>)
      modifies this
      ensures r == Lookup(old(entries), key, now)
      ensures entries == Evict(old(entries), key, now)
    {
      if key !in entries {
        return None;
      }
      var data := entries[key];
      if data.expiry.Some? && data.expiry.value < now {
        entries := entries - {key};
      }
      if key in entries {
        return entries[key].data;
      }
      return None;
    }

    /** putValue(key, Data): replaces any entry under key. */
    method PutData(key: string, d: Data)
      modifies this
      ensures entries == old(entries)[key := d]
    {
      entries := entries[key := d];
    }

    /** putValue(key, val, exp): stores Data(exp, val), replacing any entry under key. */
    method PutValue(key: string, val: string, exp: Option<int>)
      modifies this
      ensures entries == old(entries)[key := Data(exp, Some(val))]
    {
      entries := entries[key := Data(exp, Some(val))];
    }

    /** getEntrySet: every stored pair, expired or not. */
    function EntrySet(): (s: map<string, Data>)
      reads this
      ensures s.Keys == entries.Keys
      ensures forall k :: k in s ==> s[k] == entries[k]
    {
      entries
    }
  }

  // ---------------------------------------------------------------------------
  // Properties of reads and writes

  /** A missing key reads as null and the read changes nothing. */
  lemma GetMissing(m: map<string, Data>, key: string, now: int)
    requires key !in m
    ensures Lookup(m, key, now) == None && Evict(m, key, now) == m
  {
  }

  /** An entry whose expiry is before now reads as null and is removed, and only it. */
  lemma GetExpired(m: map<string, Data>, key: string, now: int)
    requires key in m && IsExpired(m[key], now)
    ensures Lookup(m, key, now) == None
    ensures Evict(m, key, now).Keys == m.Keys - {key}
    ensures forall k :: k in m && k != key ==> Evict(m, key, now)[k] == m[k]
  {
  }

  /** A live entry (no expiry, or expiry not before now) reads as its value and stays. */
  lemma GetLive(m: map<string, Data>, key: string, now: int)
    requires key in m && (m[key].expiry.None? || m[key].expiry.value >= now)
    ensures Lookup(m, key, now) == m[key].data && Evict(m, key, now) == m
  {
  }

  /** For a fixed now a second read answers the same and changes nothing more. */
  lemma GetIdempotent(m: map<string, Data>, key: string, now: int)
    ensures Lookup(Evict(m, key, now), key, now) == Lookup(m, key, now)
    ensures Evict(Evict(m, key, now), key, now) == Evict(m, key, now)
  {
  }

  /** putValue affects only its key. */
  lemma PutOnlyTouchesKey(m: map<string, Data>, key: string, d: Data, other: string, now: int)
    requires other != key
    ensures Lookup(m[key := d], other, now) == Lookup(m, other, now)
    ensures Lookup(m[key := d], key, now) == (if IsExpired(d, now) then None else d.data)
  {
  }

  /** A value stored without expiry reads back at every time. */
  lemma PutWithoutExpiryThenGet(m: map<string, Data>, key: string, v: string, now: int)
    ensures Lookup(m[key := Data(None, Some(v))], key, now) == Some(v)
  {
  }

  /** Once a key has expired it reads as null at every later time, however often it was read before. */
  lemma ExpiryIsFinal(m: map<string, Data>, key: string, now: int, later: int)
    requires key in m && IsExpired(m[key], now) && now <= later
    ensures Lookup(m, key, later) == None
    ensures Lookup(Evict(m, key, now), key, later) == None
  {
  }
}
