/**
 * The Redis key-value store as the handlers use it: `setex`, `get` and `del`.
 * An entry records its TTL in seconds; expiry over wall-clock time is not modelled.
 */
module Store {
  import opened Wrappers

  datatype Entry = Entry(value: string, ttl: nat)

  type Entries = map<string, Entry>

  /** `GET key`: the stored value, or nothing (`null`) when the key is absent. */
  function Lookup(entries: Entries, key: string): (v: Option<string>)
    ensures v.Some? <==> key in entries
    ensures v.Some? ==> v.value == entries[key].value
  {
    if key in entries then Some(entries[key].value) else None
  }

  class Redis {
    var entries: Entries

    constructor ()
      ensures entries == map[]
    {
      entries := map[];
    }

    /** `SETEX key ttl value`: overwrites any earlier entry for the key. */
    method SetEx(key: string, ttl: nat, value: string)
      modifies this
      ensures entries == old(entries)[key := Entry(value, ttl)]
    {
      entries := entries[key := Entry(value, ttl)];
    }

    /** `GET key` */
    method Get(key: string) returns (v: Option<string>)
      ensures v == Lookup(entries, key)
    {
      if key in entries {
        v := Some(entries[key].value);
      } else {
        v := None;
      }
    }

    /** `DEL key`: removes the key whether or not it is present. */
    method Del(key: string)
      modifies this
      ensures entries == old(entries) - {key}
    {
      entries := entries - {key};
    }
  }
}
