/**
 * The MQ message cache of functions/daemon.go: a key -> (message, last seen)
 * store whose entries expire 24 hours after they were stored, and the length
 * guard that `decryptMsg` applies to every broker message.
 *
 * Wall-clock time is an integer number of seconds; 0 plays the part of Go's
 * zero `time.Time`.
 */
module MessageCache {
  import opened Common

  type Time = int

  /** Go's zero time.Time; `LastSeen.IsZero()` tests against it. */
  const ZeroTime: Time := 0

  /** `time.Hour * 24`, in seconds. */
  const Expiry: int := 24 * 60 * 60

  datatype CachedMessage = CachedMessage(message: string, lastSeen: Time)

  /** The cache key: `fmt.Sprintf("%s%s", network, which)`, no separator. */
  function CacheKey(network: string, which: string): (key: string)
    ensures |key| == |network| + |which|
    ensures key[..|network|] == network && key[|network|..] == which
  {
    network + which
  }

  /** An entry is expired once `now` is strictly after LastSeen + 24h. */
  predicate Expired(m: CachedMessage, now: Time) {
    now > m.lastSeen + Expiry
  }

  /** What `read` returns for `key` at time `now`, given the cache contents. */
  function Lookup(cache: map<string, CachedMessage>, key: string, now: Time): string {
    if key !in cache then ""
    else if cache[key].lastSeen == ZeroTime then ""
    else if Expired(cache[key], now) then ""
    else cache[key].message
  }

  /** The cache contents after `read` of `key` at time `now`: only an expired entry is removed. */
  function AfterRead(cache: map<string, CachedMessage>, key: string, now: Time): map<string, CachedMessage> {
    if key in cache && cache[key].lastSeen != ZeroTime && Expired(cache[key], now) then cache - {key}
    else cache
  }

  /** The process-wide `messageCache` (a sync.Map in the source). */
  class Cache {
    var entries: map<string, CachedMessage>

    constructor ()
      ensures entries == map[]
    {
      entries := map[];
    }

    /** functions/daemon.go `read`. */
    method Read(network: string, which: string, now: Time) returns (msg: string)
      modifies this
      ensures msg == Lookup(old(entries), CacheKey(network, which), now)
      ensures entries == AfterRead(old(entries), CacheKey(network, which), now)
    {
      var key := CacheKey(network, which);
      if key in entries {
        var readMessage := entries[key];
        if readMessage.lastSeen == ZeroTime {
          return "";
        }
        if now > readMessage.lastSeen + Expiry {
          entries := entries - {key};
          return "";
        }
        return readMessage.message;
      }
      return "";
    }

    /** functions/daemon.go `insert`: store (or overwrite) the message, stamped with `now`. */
    method Insert(network: string, which: string, cache: string, now: Time)
      modifies this
      ensures entries == old(entries)[CacheKey(network, which) := CachedMessage(cache, now)]
    {
      entries := entries[CacheKey(network, which) := CachedMessage(cache, now)];
    }
  }

  /** A key that was never stored reads as "" and the read changes nothing. */
  lemma ReadOfAbsentKey(cache: map<string, CachedMessage>, key: string, now: Time)
    requires key !in cache
    ensures Lookup(cache, key, now) == "" && AfterRead(cache, key, now) == cache
  {
  }

  /** An entry stamped with the zero time reads as "" and is never deleted by a read. */
  lemma ReadOfZeroStamp(cache: map<string, CachedMessage>, key: string, now: Time)
    requires key in cache && cache[key].lastSeen == ZeroTime
    ensures Lookup(cache, key, now) == "" && AfterRead(cache, key, now) == cache
  {
  }

  /**
   * A read strictly after LastSeen + 24h returns "" and deletes exactly that
   * entry; any earlier read returns the stored message and leaves the cache as it is.
   */
  lemma ReadExpiry(cache: map<string, CachedMessage>, key: string, now: Time)
    requires key in cache && cache[key].lastSeen != ZeroTime
    ensures now > cache[key].lastSeen + Expiry ==>
      Lookup(cache, key, now) == "" && AfterRead(cache, key, now).Keys == cache.Keys - {key}
      && forall k :: k in cache && k != key ==> AfterRead(cache, key, now)[k] == cache[k]
    ensures now <= cache[key].lastSeen + Expiry ==>
      Lookup(cache, key, now) == cache[key].message && AfterRead(cache, key, now) == cache
  {
  }

  /**
   * Round trip: after `insert(network, which, msg)` at a non-zero time `t`,
   * a `read` of the same pair at any time up to t + 24h returns `msg`,
   * whatever the cache held before, and the read does not disturb the cache.
   */
  lemma InsertThenRead(cache: map<string, CachedMessage>, network: string, which: string, msg: string, t: Time, later: Time)
    requires t != ZeroTime && later <= t + Expiry
    ensures var stored := cache[CacheKey(network, which) := CachedMessage(msg, t)];
      Lookup(stored, CacheKey(network, which), later) == msg
      && AfterRead(stored, CacheKey(network, which), later) == stored
  {
  }

  /**
   * The key has no separator, so a pair whose split point differs addresses
   * the same entry: ("ab", "c") and ("a", "bc") collide.
   */
  lemma KeysCollide(a: string, b: string, c: string)
    ensures CacheKey(a + b, c) == CacheKey(a, b + c)
    ensures CacheKey("ab", "c") == CacheKey("a", "bc")
  {
    assert "ab" == "a" + "b";
  }

  // ----- decryptMsg -----

  /** Messages of this many bytes or fewer are rejected before any key is touched. */
  const MinMessageLength: nat := 24

  type Key = seq<byte>

  datatype DecryptError =
    | InvalidMessage           // "received invalid message from broker"
    | BadHostKey               // ConvertBytesToKey(host.TrafficKeyPrivate) failed
    | NilServer(name: string)  // config.GetServer returned nil
    | BadServerKey             // ConvertBytesToKey(server.TrafficKey) failed
    | DeChunkFailed(reason: string)

  datatype Decrypted = Plain(bytes: seq<byte>) | DecryptFailed(error: DecryptError)

  /**
   * Everything `decryptMsg` consults besides the message: the host's private
   * traffic key, the configured servers' public traffic keys, and the external
   * key conversion and de-chunking routines.
   */
  datatype Keyring = Keyring(
    hostTrafficKey: seq<byte>,
    serverTrafficKeys: map<string, seq<byte>>,
    toKey: seq<byte> -> Option<Key>,
    deChunk: (seq<byte>, Key, Key) -> Decrypted)

  /** functions/daemon.go `decryptMsg`, its checks in source order. */
  function DecryptMsg(serverName: string, msg: seq<byte>, keys: Keyring): Decrypted {
    if |msg| <= MinMessageLength then DecryptFailed(InvalidMessage)
    else match keys.toKey(keys.hostTrafficKey)
      case None => DecryptFailed(BadHostKey)
      case Some(diskKey) =>
        if serverName !in keys.serverTrafficKeys then DecryptFailed(NilServer(serverName))
        else match keys.toKey(keys.serverTrafficKeys[serverName])
          case None => DecryptFailed(BadServerKey)
          case Some(serverPubKey) => keys.deChunk(msg, serverPubKey, diskKey)
  }

  /**
   * The length guard comes before any key lookup: a message of at most 24
   * bytes is rejected identically under any two keyrings.
   */
  lemma ShortMessageRejected(serverName: string, msg: seq<byte>, k1: Keyring, k2: Keyring)
    requires |msg| <= MinMessageLength
    ensures DecryptMsg(serverName, msg, k1) == DecryptMsg(serverName, msg, k2) == DecryptFailed(InvalidMessage)
  {
  }
}
