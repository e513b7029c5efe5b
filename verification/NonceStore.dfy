/** The in-process nonce store: a map from claimed nonce keys to how long each must be kept. */
module NonceStore {
  import opened Words

  /** What eviction at `now` keeps: an entry goes as soon as its expiry is reached. */
  function Unexpired(seen: map<Bytes32, u64>, now: u64): map<Bytes32, u64> {
    map k | k in seen && seen[k] > now :: seen[k]
  }

  class InMemoryNonceStore {
    var seen: map<Bytes32, u64>

    constructor ()
      ensures seen == map[]
    {
      seen := map[];
    }

    /** Insert the nonce and report whether it was new, in one step. A spent nonce keeps its entry. */
    method Claim(nonce: Bytes32, expiresAt: u64) returns (claimed: bool)
      modifies this
      ensures claimed == (nonce !in old(seen))
      ensures seen == if claimed then old(seen)[nonce := expiresAt] else old(seen)
    {
      if nonce in seen {
        return false;
      }
      seen := seen[nonce := expiresAt];
      return true;
    }

    method EvictExpired(now: u64)
      modifies this
      ensures seen == Unexpired(old(seen), now)
    {
      seen := map k | k in seen && seen[k] > now :: seen[k];
    }
  }
}
