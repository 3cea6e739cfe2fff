/**
 * The `storage` service: string values kept in the browser's local storage,
 * so that they survive a page reload.
 *
 * The service probes local storage once, when it is created. When the probe
 * fails (storage disabled by the host), it falls back to a store that never
 * holds anything: `get` answers `null` for every key and `set` does nothing.
 */
module Storage {
  import opened Options

  class KeyValueStore {
    /** Whether the probe of local storage succeeded. */
    const available: bool
    /** The contents of local storage under this page's origin. */
    var items: map<string, string>

    /** The probe's outcome is decided by the host environment, so it is a
        parameter here, as is what local storage already holds. */
    constructor (probeSucceeds: bool, stored: map<string, string>)
      ensures available == probeSucceeds
      ensures items == if probeSucceeds then stored else map[]
    {
      available := probeSucceeds;
      items := if probeSucceeds then stored else map[];
    }

    /** `get(key)`: the stored string, or `null` (None) when there is none. */
    function Get(key: string): (r: Option<string>)
      reads this
      ensures r.Some? <==> available && key in items
      ensures r.Some? ==> r.value == items[key]
    {
      if available && key in items then Some(items[key]) else None
    }

    /** `set(key, val)`: store `val` under `key`; a no-op without storage. */
    method Set(key: string, val: string)
      modifies this
      ensures items == if available then old(items)[key := val] else old(items)
      ensures Get(key) == if available then Some(val) else None
      ensures forall k :: k != key ==> Get(k) == old(Get(k))
    {
      if available {
        items := items[key := val];
      }
    }
  }

  /** With local storage unavailable, every key reads as `null`, whatever was
      set before. */
  lemma UnavailableReadsNull(s: KeyValueStore, key: string)
    requires !s.available
    ensures s.Get(key) == None
  {
  }

  /** Local storage holds strings only: a boolean is stored as its text. */
  function BoolText(b: bool): (r: string)
    ensures r == "true" || r == "false"
  {
    if b then "true" else "false"
  }

  /** A boolean preference is read back as `get(key) === 'true'`. */
  function ReadFlag(v: Option<string>): bool {
    v == Some("true")
  }

  /** A boolean persisted with `set` is read back as the same boolean. */
  lemma FlagRoundTrip(b: bool)
    ensures ReadFlag(Some(BoolText(b))) == b
  {
  }
}
