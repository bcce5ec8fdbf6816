/**
 * The encrypted browser store (ProtectedLocalStorage) seen through its
 * contract: a key-value map that can be written and deleted, and a read
 * whose outcome may be a decryption failure.
 */
module Storage {
  import opened Wrappers
  import opened Dtos

  /**
   * The outcome of `GetAsync<BasketDto>(key)`: either the read completed,
   * with a success flag and a possibly-null value, or unprotecting the
   * stored blob threw a CryptographicException, or the read threw any
   * other exception (JavaScript interop unavailable, malformed payload).
   */
  datatype GetResult =
    | Completed(success: bool, value: Option<seq<MenuItem>>)
    | DecryptionFailed
    | ReadFailed

  /** The store itself: one serialised basket per key. */
  class ProtectedLocalStorage {
    var entries: map<string, seq<MenuItem>>

    constructor ()
      ensures entries == map[]
    {
      entries := map[];
    }

    /** `SetAsync(key, value)`: stores `value` under `key`, overwriting what was there. */
    method SetAsync(key: string, value: seq<MenuItem>)
      modifies this
      ensures entries == old(entries)[key := value]
    {
      entries := entries[key := value];
    }

    /** `DeleteAsync(key)`: removes whatever is stored under `key`. */
    method DeleteAsync(key: string)
      modifies this
      ensures entries == old(entries) - {key}
    {
      entries := entries - {key};
    }

    /**
     * What a read of `key` returns when the protection key is `decryptable`
     * or not: a missing key is an unsuccessful read, a present one is either
     * its value or a decryption failure.
     */
    function Read(key: string, decryptable: bool): (r: GetResult)
      reads this
      ensures r == Completed(false, None) <==> key !in entries
      ensures r.DecryptionFailed? <==> key in entries && !decryptable
      ensures key in entries && decryptable ==> r == Completed(true, Some(entries[key]))
    {
      if key !in entries then Completed(false, None)
      else if !decryptable then DecryptionFailed
      else Completed(true, Some(entries[key]))
    }
  }
}
