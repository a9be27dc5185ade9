/** The offline storage cache: bounded maps with expiry and eviction (dsm/src/communication/storage_cache.rs). */
module StorageCache {
  import opened Common

  type Key = string

  datatype Entry<T> = Entry(data: T, lastAccessed: nat, createdAt: nat, ttl: nat, hash: Bytes, verified: bool)

  datatype Error = Serialization | Integrity

  /** Serialization of the cached items, which may fail, and the digest of the bytes. */
  datatype Codec<!T> = Codec(encode: T -> Option<Bytes>, digest: Digest)

  datatype Config = Config(maxEntries: nat, defaultTtl: nat)

  /** Never with a zero ttl, and never while the clock reads earlier than the creation time. */
  predicate IsExpired<T>(e: Entry<T>, now: nat) {
    e.ttl != 0 && now >= e.createdAt && now - e.createdAt > e.ttl
  }

  /** `None` when the item cannot be serialized. */
  function Intact<T>(cx: Codec<T>, e: Entry<T>): Option<bool> {
    match cx.encode(e.data)
    case None => None
    case Some(bytes) => Some(cx.digest(bytes) == e.hash)
  }

  function NewEntry<T>(cx: Codec<T>, cfg: Config, data: T, ttl: Option<nat>, verified: bool,
                       now: nat): Option<Entry<T>>
  {
    match cx.encode(data)
    case None => None
    case Some(bytes) =>
      var lifetime := if ttl.Some? then ttl.value else cfg.defaultTtl;
      Some(Entry(data, now, now, lifetime, cx.digest(bytes), verified))
  }

  // ---------------------------------------------------------------- one cache map

  ghost predicate IsOldest<T(!new)>(m: map<Key, Entry<T>>, v: Key) {
    v in m && forall k :: k in m ==> m[v].lastAccessed <= m[k].lastAccessed
  }

  /** Drop `victim` when the map is full; the entry to be written does not matter. */
  function MakeRoom<T>(cfg: Config, m: map<Key, Entry<T>>, victim: Key): map<Key, Entry<T>> {
    if |m| >= cfg.maxEntries && m != map[] then m - {victim} else m
  }

  /** `cache_token`: room is made before the new entry is built, and stays made when that fails. */
  function Put<T>(cx: Codec<T>, cfg: Config, m: map<Key, Entry<T>>, key: Key, data: T, ttl: Option<nat>,
                  verified: bool, now: nat, victim: Key): (map<Key, Entry<T>>, Result<(), Error>)
  {
    var room := MakeRoom(cfg, m, victim);
    match NewEntry(cx, cfg, data, ttl, verified, now)
    case None => (room, Err(Serialization))
    case Some(e) => (room[key := e], Ok(()))
  }

  /** `get_token`. */
  function Get<T>(cx: Codec<T>, m: map<Key, Entry<T>>, key: Key, now: nat)
    : (map<Key, Entry<T>>, Result<Option<T>, Error>)
  {
    if key !in m then (m, Ok(None))
    else if IsExpired(m[key], now) then (m - {key}, Ok(None))
    else
      match Intact(cx, m[key])
      case None => (m, Err(Serialization))
      case Some(false) => (m - {key}, Err(Integrity))
      case Some(true) => (m[key := m[key].(lastAccessed := now)], Ok(Some(m[key].data)))
  }

  function Unexpired<T>(m: map<Key, Entry<T>>, now: nat): map<Key, Entry<T>> {
    map k | k in m && !IsExpired(m[k], now) :: m[k]
  }

  // ---------------------------------------------------------------- the object

  datatype Token = Token(content: Bytes)

  datatype Checkpoint = Checkpoint(number: u64, content: Bytes)

  datatype GenesisState = GenesisState(content: Bytes)

  datatype InvalidationMarker = InvalidationMarker(content: Bytes)

  class StorageCache {
    const config: Config
    const tokenCodec: Codec<Token>
    const checkpointCodec: Codec<Checkpoint>
    var genesis: map<Key, Entry<GenesisState>>
    var tokens: map<Key, Entry<Token>>
    var checkpoints: map<Key, Entry<Checkpoint>>
    var invalidations: map<Key, Entry<InvalidationMarker>>

    constructor (cfg: Config, tokenCodec: Codec<Token>, checkpointCodec: Codec<Checkpoint>)
      ensures genesis == map[] && tokens == map[] && checkpoints == map[] && invalidations == map[] && config == cfg
      ensures this.tokenCodec == tokenCodec && this.checkpointCodec == checkpointCodec
    {
      config := cfg;
      this.tokenCodec, this.checkpointCodec := tokenCodec, checkpointCodec;
      genesis, tokens, checkpoints, invalidations := map[], map[], map[], map[];
    }

    /** `min_by_key` over the map in whatever order it iterates. */
    method FindOldest(m: map<Key, Entry<Token>>) returns (v: Key)
      requires m != map[]
      ensures IsOldest(m, v)
    {
      var todo := m.Keys;
      v :| v in m;
      while todo != {}
        invariant todo <= m.Keys && v in m
        invariant forall k :: k in m.Keys - todo ==> m[v].lastAccessed <= m[k].lastAccessed
        decreases todo
      {
        var k :| k in todo;
        todo := todo - {k};
        if m[k].lastAccessed < m[v].lastAccessed {
          v := k;
        }
      }
    }

    method CacheToken(key: Key, token: Token, verified: bool, ttl: Option<nat>, now: nat) returns (r: Result<(), Error>)
      modifies this`tokens
      ensures exists victim ::
                && (old(tokens) != map[] ==> IsOldest(old(tokens), victim))
                && (tokens, r) == Put(tokenCodec, config, old(tokens), key, token, ttl, verified, now, victim)
    {
      var victim := key;
      if tokens != map[] {
        victim := FindOldest(tokens);
      }
      if |tokens| >= config.maxEntries {
        if tokens != map[] {
          tokens := tokens - {victim};
        }
      }
      var entry := NewEntry(tokenCodec, config, token, ttl, verified, now);
      if entry.None? {
        r := Err(Serialization);
      } else {
        tokens := tokens[key := entry.value];
        r := Ok(());
      }
      assert (tokens, r) == Put(tokenCodec, config, old(tokens), key, token, ttl, verified, now, victim);
    }

    method GetToken(key: Key, now: nat) returns (r: Result<Option<Token>, Error>)
      modifies this`tokens
      ensures (tokens, r) == Get(tokenCodec, old(tokens), key, now)
    {
      if key !in tokens {
        return Ok(None);
      }
      var entry := tokens[key];
      if IsExpired(entry, now) {
        tokens := tokens - {key};
        return Ok(None);
      }
      match Intact(tokenCodec, entry) {
        case None => return Err(Serialization);
        case Some(intact) =>
          if !intact {
            tokens := tokens - {key};
            return Err(Integrity);
          }
      }
      tokens := tokens[key := entry.(lastAccessed := now)];
      r := Ok(Some(entry.data));
    }

    /** An entry that the closest-checkpoint search may return for a state number. */
    predicate Usable(e: Entry<Checkpoint>, n: u64, now: nat)
    {
      !IsExpired(e, now) && Intact(checkpointCodec, e) == Some(true) && e.data.number <= n
    }

    predicate Unreadable(e: Entry<Checkpoint>, now: nat) {
      !IsExpired(e, now) && Intact(checkpointCodec, e).None?
    }

    /** A usable checkpoint among those under `keys`, of a number no other one exceeds. */
    ghost predicate IsClosest(keys: set<Key>, c: Checkpoint, n: u64, now: nat)
      requires keys <= checkpoints.Keys
      reads this
    {
      && (exists k :: k in keys && Usable(checkpoints[k], n, now) && checkpoints[k].data == c)
      && (forall k :: k in keys && Usable(checkpoints[k], n, now) ==> checkpoints[k].data.number <= c.number)
    }

    /**
     `get_closest_checkpoint`: a usable checkpoint of the greatest number not above `n`, nothing
     when there is none, and an error exactly when some unexpired entry cannot be serialized.
     */
    method GetClosestCheckpoint(n: u64, now: nat) returns (r: Result<Option<Checkpoint>, Error>)
      ensures r.Err? <==> exists k :: k in checkpoints && Unreadable(checkpoints[k], now)
      ensures r.Ok? && r.value.Some? ==> IsClosest(checkpoints.Keys, r.value.value, n, now)
      ensures r.Ok? && r.value.None? ==> forall k :: k in checkpoints ==> !Usable(checkpoints[k], n, now)
    {
      var closest: Option<Checkpoint> := None;
      var todo := checkpoints.Keys;
      while todo != {}
        invariant todo <= checkpoints.Keys
        invariant forall k :: k in checkpoints.Keys - todo ==>
            IsExpired(checkpoints[k], now) || Intact(checkpointCodec, checkpoints[k]).Some?
        invariant closest.None? ==> forall k :: k in checkpoints.Keys - todo ==> !Usable(checkpoints[k], n, now)
        invariant closest.Some? ==> IsClosest(checkpoints.Keys - todo, closest.value, n, now)
        decreases todo
      {
        var k :| k in todo;
        todo := todo - {k};
        var entry := checkpoints[k];
        if IsExpired(entry, now) {
          continue;
        }
        match Intact(checkpointCodec, entry) {
          case None => return Err(Serialization);
          case Some(intact) =>
            if !intact {
              continue;
            }
        }
        if entry.data.number <= n {
          if closest.None? || entry.data.number > closest.value.number {
            closest := Some(entry.data);
          }
        }
      }
      r := Ok(closest);
    }

    /** `clear_expired` keeps exactly the unexpired entries of the four maps and reports how many it dropped. */
    method ClearExpired(now: nat) returns (removed: nat)
      modifies this`genesis, this`tokens, this`checkpoints, this`invalidations
      ensures genesis == Unexpired(old(genesis), now) && tokens == Unexpired(old(tokens), now)
      ensures checkpoints == Unexpired(old(checkpoints), now) && invalidations == Unexpired(old(invalidations), now)
      ensures removed == |old(genesis)| - |genesis| + |old(tokens)| - |tokens|
                         + |old(checkpoints)| - |checkpoints| + |old(invalidations)| - |invalidations|
    {
      var dropped;
      genesis, dropped := Retain(genesis, now);
      removed := dropped;
      tokens, dropped := Retain(tokens, now);
      removed := removed + dropped;
      checkpoints, dropped := Retain(checkpoints, now);
      removed := removed + dropped;
      invalidations, dropped := Retain(invalidations, now);
      removed := removed + dropped;
    }
  }

  /** `retain` over a map in whatever order it iterates, with the number of entries that went. */
  method Retain<T>(m: map<Key, Entry<T>>, now: nat) returns (kept: map<Key, Entry<T>>, dropped: nat)
    ensures kept == Unexpired(m, now) && dropped == |m| - |kept|
  {
    kept := m;
    var todo := m.Keys;
    while todo != {}
      invariant todo <= m.Keys
      invariant forall k :: k in kept <==> k in m && (k in todo || !IsExpired(m[k], now))
      invariant forall k :: k in kept ==> kept[k] == m[k]
      decreases todo
    {
      var k :| k in todo;
      todo := todo - {k};
      if IsExpired(m[k], now) {
        kept := kept - {k};
      }
    }
    assert kept == Unexpired(m, now);
    UnexpiredIsSmaller(m, now);
    dropped := |m| - |kept|;
  }

  lemma {:induction false} UnexpiredIsSmaller<T>(m: map<Key, Entry<T>>, now: nat)
    ensures |Unexpired(m, now)| <= |m|
  {
    SubsetIsSmaller(Unexpired(m, now).Keys, m.Keys);
  }
}
