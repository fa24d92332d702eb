/**
 * The browser's key-value storage as the view toggle and the locale helpers
 * use it: string values under string keys, reads and writes that throw when
 * the storage is not available, and writes that throw when the quota is
 * exceeded.
 */
module BrowserStorage {
  import opened Wrappers

  /** Why a storage call throws. */
  datatype StorageError = Unavailable | QuotaExceeded

  /** `getItem` on a snapshot of the entries: the value, or `null` (`None`) for a key never set. */
  function LookupIn(items: map<string, string>, key: string): (r: Option<string>)
    ensures r.Some? <==> key in items
    ensures r.Some? ==> r.value == items[key]
  {
    if key in items then Some(items[key]) else None
  }

  /** A value written under a key is read back under that key, and every other key reads as before. */
  lemma SetThenGet(items: map<string, string>, key: string, value: string, other: string)
    ensures LookupIn(items[key := value], key) == Some(value)
    ensures other != key ==> LookupIn(items[key := value], other) == LookupIn(items, other)
  {
  }

  class WebStorage {
    /** The entries. */
    var items: map<string, string>
    /** Whether the storage can be used at all (it cannot in some private modes). */
    var available: bool

    constructor (items: map<string, string>, available: bool)
      ensures this.items == items && this.available == available
    {
      this.items := items;
      this.available := available;
    }

    /** The value under `key`, looked up without the possibility of throwing. */
    function Lookup(key: string): Option<string>
      reads this
    {
      LookupIn(items, key)
    }

    /** `getItem`: the value or `null`, or the exception of an unavailable storage. */
    method GetItem(key: string) returns (r: Result<Option<string>, StorageError>)
      ensures available ==> r == Success(Lookup(key))
      ensures !available ==> r == Failure(Unavailable)
    {
      if !available {
        return Failure(Unavailable);
      }
      r := Success(Lookup(key));
    }

    /**
     * `setItem`: the entry is written, or, when the storage is unavailable or
     * the value does not fit (`fits` is the browser's quota decision), the
     * call throws and nothing is written.
     */
    method SetItem(key: string, value: string, fits: bool) returns (r: Result<(), StorageError>)
      modifies this
      ensures available && fits ==> r.Success? && items == old(items)[key := value]
      ensures !available ==> r == Failure(Unavailable) && items == old(items)
      ensures available && !fits ==> r == Failure(QuotaExceeded) && items == old(items)
      ensures available == old(available)
    {
      if !available {
        return Failure(Unavailable);
      }
      if !fits {
        return Failure(QuotaExceeded);
      }
      items := items[key := value];
      r := Success(());
    }
  }
}
