/** The distributed cache the repository talks to (`IDistributedCache`, backed
    by Redis): a key/value store of strings whose entries carry an absolute
    expiry instant. Time is a parameter `now`, in whole seconds. */
module Cache {
  import opened Domain

  datatype Entry = Entry(value: string, expiresAt: int)

  /** An entry is visible while `now` is before its expiry instant. */
  predicate Live(e: Entry, now: int) { now < e.expiresAt }

  /** What `GetStringAsync(key)` answers at time `now`: the stored string, or
      `None` (C#'s `null`) when the key is missing or has expired. */
  function Lookup(entries: map<string, Entry>, key: string, now: int): (r: Option<string>)
    ensures r.Some? <==> key in entries && now < entries[key].expiresAt
    ensures r.Some? ==> r.value == entries[key].value
  {
    if key in entries && Live(entries[key], now) then Some(entries[key].value) else None
  }

  /** An update of one key hides nothing and reveals nothing under any other
      key. */
  lemma LookupOtherKey(entries: map<string, Entry>, key: string, e: Entry, other: string, now: int)
    requires other != key
    ensures Lookup(entries[key := e], other, now) == Lookup(entries, other, now)
  {
  }

  /** An entry seen at some instant was already visible at every earlier one:
      expiry is absolute and never pushed back by a read. */
  lemma LookupEarlier(entries: map<string, Entry>, key: string, earlier: int, now: int)
    requires earlier <= now
    requires Lookup(entries, key, now).Some?
    ensures Lookup(entries, key, earlier) == Lookup(entries, key, now)
  {
  }

  class DistributedCache {
    var entries: map<string, Entry>

    constructor ()
      ensures entries == map[]
    {
      entries := map[];
    }

    /** Reading never changes an entry (no sliding expiration). */
    method GetStringAsync(key: string, now: int) returns (r: Option<string>)
      ensures r == Lookup(entries, key, now)
    {
      r := Lookup(entries, key, now);
    }

    /** Writes `value` under `key`, replacing any earlier entry, to expire
        `ttl` seconds after `now` (`AbsoluteExpirationRelativeToNow`). */
    method SetStringAsync(key: string, value: string, ttl: nat, now: int)
      modifies this
      ensures entries == old(entries)[key := Entry(value, now + ttl)]
      ensures Lookup(entries, key, now) == (if ttl > 0 then Some(value) else None)
    {
      entries := entries[key := Entry(value, now + ttl)];
    }
  }
}
