/** The token policy store: policy files behind an LRU cache with expiry (dsm/src/cpta/policy_store.rs). */
module PolicyStore {
  import opened Common

  /** `PolicyAnchor`, the content hash of a policy. */
  datatype Anchor = Anchor(bytes: Bytes)

  /** A policy file in memory, the iteration order of its metadata map included. */
  datatype PolicyFile = PolicyFile(content: Bytes)

  datatype TokenPolicy = TokenPolicy(file: PolicyFile, anchor: Anchor, verified: bool, lastVerified: nat)

  datatype Entry = Entry(policy: TokenPolicy, added: nat, lastAccess: nat)

  datatype Error = NotFound | Unserializable | Undecodable | AnchorMismatch | EmptyAnchor

  /** Content hash and JSON codec, left uninterpreted; each may fail. */
  datatype Codec = Codec(
    anchorOf: PolicyFile -> Option<Anchor>,
    toJson: PolicyFile -> Option<string>,
    fromJson: string -> Option<PolicyFile>)

  datatype Config = Config(maxSize: nat, ttl: nat)

  /** A cache of size zero still takes the entry that was just loaded. */
  function Limit(cfg: Config): nat {
    if cfg.maxSize > 0 then cfg.maxSize else 1
  }

  /** Policy files are named by the hex form of their anchor, so the directory is a map from anchors. */
  datatype State = State(cache: map<Anchor, Entry>, order: seq<Anchor>, files: map<Anchor, string>)

  const EMPTY := State(map[], [], map[])

  /** A call's reading of the monotonic clock and of the wall clock. */
  datatype Time = Time(now: nat, wall: nat)

  // ---------------------------------------------------------------- cache operations

  function PositionOf(order: seq<Anchor>, a: Anchor): (i: nat)
    ensures i <= |order|
    ensures i < |order| ==> order[i] == a
    ensures forall k :: 0 <= k < i ==> order[k] != a
  {
    if order == [] || order[0] == a then 0 else 1 + PositionOf(order[1..], a)
  }

  /** `position` then `remove`. */
  function RemoveFirst(order: seq<Anchor>, a: Anchor): seq<Anchor> {
    var i := PositionOf(order, a);
    if i < |order| then order[..i] + order[i + 1..] else order
  }

  function Forget(st: State, a: Anchor): State {
    st.(cache := st.cache - {a}, order := RemoveFirst(st.order, a))
  }

  predicate Expired(cfg: Config, e: Entry, now: nat) {
    now > e.added + cfg.ttl
  }

  function Touch(st: State, a: Anchor, now: nat): State
    requires a in st.cache
  {
    st.(cache := st.cache[a := st.cache[a].(lastAccess := now)], order := RemoveFirst(st.order, a) + [a])
  }

  /** Make room for `a`, if it is new and the cache is full, by dropping the front of the order. */
  function Evict(cfg: Config, st: State, a: Anchor): State {
    if |st.cache| >= cfg.maxSize && a !in st.cache && st.order != [] then
      st.(cache := st.cache - {st.order[0]}, order := st.order[1..])
    else st
  }

  function AddToCache(cfg: Config, st: State, a: Anchor, p: TokenPolicy, now: nat): State {
    var room := Evict(cfg, st, a);
    room.(cache := room.cache[a := Entry(p, now, now)], order := RemoveFirst(room.order, a) + [a])
  }

  function ForgetAll(st: State, anchors: seq<Anchor>): State
    decreases |anchors|
  {
    if anchors == [] then st else ForgetAll(Forget(st, anchors[0]), anchors[1..])
  }

  // ---------------------------------------------------------------- store operations

  /** `store_policy` writes the file and the cache entry but not the access order. */
  function StorePolicy(cx: Codec, st: State, f: PolicyFile, t: Time): (State, Result<Anchor, Error>) {
    match (cx.anchorOf(f), cx.toJson(f))
    case (Some(a), Some(json)) =>
      var entry := Entry(TokenPolicy(f, a, true, t.wall), t.now, t.now);
      (st.(files := st.files[a := json], cache := st.cache[a := entry]), Ok(a))
    case _ => (st, Err(Unserializable))
  }

  /** A read that never looks at the cache. */
  function ReadFile(cx: Codec, files: map<Anchor, string>, a: Anchor): Result<PolicyFile, Error> {
    if a !in files then Err(NotFound)
    else
      match cx.fromJson(files[a])
      case None => Err(Undecodable)
      case Some(f) =>
        match cx.anchorOf(f)
        case None => Err(Unserializable)
        case Some(b) => if b != a then Err(AnchorMismatch) else Ok(f)
  }

  function Load(cx: Codec, cfg: Config, st: State, a: Anchor, t: Time): (State, Result<TokenPolicy, Error>) {
    match ReadFile(cx, st.files, a)
    case Err(e) => (st, Err(e))
    case Ok(f) =>
      var p := TokenPolicy(f, a, true, t.wall);
      (AddToCache(cfg, st, a, p, t.now), Ok(p))
  }

  function GetPolicy(cx: Codec, cfg: Config, st: State, a: Anchor, t: Time): (State, Result<TokenPolicy, Error>) {
    if a !in st.cache then Load(cx, cfg, st, a, t)
    else if Expired(cfg, st.cache[a], t.now) then Load(cx, cfg, Forget(st, a), a, t)
    else (Touch(st, a, t.now), Ok(st.cache[a].policy))
  }

  function GetFromCache(cfg: Config, st: State, a: Anchor, now: nat): (State, Option<TokenPolicy>) {
    if a !in st.cache then (st, None)
    else if Expired(cfg, st.cache[a], now) then (Forget(st, a), None)
    else (Touch(st, a, now), Some(st.cache[a].policy))
  }

  predicate AllZero(a: Anchor) {
    forall i :: 0 <= i < |a.bytes| ==> a.bytes[i] == 0
  }

  function VerifyAndGet(cx: Codec, cfg: Config, st: State, a: Anchor, data: Option<string>, t: Time)
    : (State, Result<TokenPolicy, Error>)
  {
    match data
    case None => GetPolicy(cx, cfg, st, a, t)
    case Some(json) =>
      if AllZero(a) then (st, Err(EmptyAnchor))
      else
        match cx.fromJson(json)
        case None => (st, Err(Undecodable))
        case Some(f) =>
          var (stored, r) := StorePolicy(cx, st, f, t);
          match r
          case Err(e) => (stored, Err(e))
          case Ok(_) => GetPolicy(cx, cfg, stored, a, t)
  }

  function DeletePolicy(st: State, a: Anchor): State {
    Forget(st, a).(files := st.files - {a})
  }

  function ClearCache(st: State): State {
    st.(cache := map[], order := [])
  }

  ghost predicate ListsExpired(cfg: Config, st: State, now: nat, expired: seq<Anchor>) {
    && NoRepeats(expired)
    && (forall a :: a in expired <==> a in st.cache && Expired(cfg, st.cache[a], now))
  }

  // ---------------------------------------------------------------- the object

  class PolicyStore {
    const codec: Codec
    const config: Config
    var cache: map<Anchor, Entry>
    var accessOrder: seq<Anchor>
    var files: map<Anchor, string>

    function Abs(): State
      reads this
    {
      State(cache, accessOrder, files)
    }

    constructor (cx: Codec, cfg: Config, files: map<Anchor, string>)
      ensures Abs() == EMPTY.(files := files) && codec == cx && config == cfg
    {
      codec, config, cache, accessOrder := cx, cfg, map[], [];
      this.files := files;
    }

    /** The position of an anchor in the access order is found by scanning and then removed. */
    method RemoveFromOrder(a: Anchor)
      modifies this`accessOrder
      ensures accessOrder == RemoveFirst(old(accessOrder), a)
    {
      var i := 0;
      while i < |accessOrder| && accessOrder[i] != a
        invariant i <= |accessOrder|
        invariant forall k :: 0 <= k < i ==> accessOrder[k] != a
      {
        i := i + 1;
      }
      assert i == PositionOf(accessOrder, a);
      if i < |accessOrder| {
        accessOrder := accessOrder[..i] + accessOrder[i + 1..];
      }
    }

    method StoreFile(f: PolicyFile, t: Time) returns (r: Result<Anchor, Error>)
      modifies this`cache, this`files
      ensures (Abs(), r) == StorePolicy(codec, old(Abs()), f, t)
    {
      var anchor, json := codec.anchorOf(f), codec.toJson(f);
      if anchor.None? || json.None? {
        return Err(Unserializable);
      }
      var a := anchor.value;
      files := files[a := json.value];
      cache := cache[a := Entry(TokenPolicy(f, a, true, t.wall), t.now, t.now)];
      r := Ok(a);
    }

    method Get(a: Anchor, t: Time) returns (r: Result<TokenPolicy, Error>)
      modifies this`cache, this`accessOrder
      ensures (Abs(), r) == GetPolicy(codec, config, old(Abs()), a, t)
    {
      if a in cache {
        var entry := cache[a];
        if t.now > entry.added + config.ttl {
          cache := cache - {a};
          RemoveFromOrder(a);
        } else {
          cache := cache[a := entry.(lastAccess := t.now)];
          RemoveFromOrder(a);
          accessOrder := accessOrder + [a];
          return Ok(entry.policy);
        }
      }
      if a !in files {
        return Err(NotFound);
      }
      var file := codec.fromJson(files[a]);
      if file.None? {
        return Err(Undecodable);
      }
      var calculated := codec.anchorOf(file.value);
      if calculated.None? {
        return Err(Unserializable);
      }
      if calculated.value != a {
        return Err(AnchorMismatch);
      }
      var policy := TokenPolicy(file.value, a, true, t.wall);
      Cache(a, policy, t.now);
      r := Ok(policy);
    }

    method Cache(a: Anchor, policy: TokenPolicy, now: nat)
      modifies this`cache, this`accessOrder
      ensures Abs() == AddToCache(config, old(Abs()), a, policy, now)
    {
      if |cache| >= config.maxSize && a !in cache {
        if accessOrder != [] {
          var lru := accessOrder[0];
          accessOrder := accessOrder[1..];
          cache := cache - {lru};
        }
      }
      RemoveFromOrder(a);
      accessOrder := accessOrder + [a];
      cache := cache[a := Entry(policy, now, now)];
    }

    /** With data at hand the anchor is checked first; the data is then stored before the lookup. */
    method VerifyAndGetPolicy(a: Anchor, data: Option<string>, t: Time) returns (r: Result<TokenPolicy, Error>)
      modifies this`cache, this`accessOrder, this`files
      ensures (Abs(), r) == VerifyAndGet(codec, config, old(Abs()), a, data, t)
    {
      if data.Some? {
        if AllZero(a) {
          return Err(EmptyAnchor);
        }
        var file := codec.fromJson(data.value);
        if file.None? {
          return Err(Undecodable);
        }
        var stored := StoreFile(file.value, t);
        if stored.Err? {
          return Err(stored.error);
        }
      }
      r := Get(a, t);
    }

    method GetCached(a: Anchor, now: nat) returns (r: Option<TokenPolicy>)
      modifies this`cache, this`accessOrder
      ensures (Abs(), r) == GetFromCache(config, old(Abs()), a, now)
    {
      if a !in cache {
        return None;
      }
      var entry := cache[a];
      if now > entry.added + config.ttl {
        cache := cache - {a};
        RemoveFromOrder(a);
        return None;
      }
      cache := cache[a := entry.(lastAccess := now)];
      RemoveFromOrder(a);
      accessOrder := accessOrder + [a];
      r := Some(entry.policy);
    }

    method Clear()
      modifies this`cache, this`accessOrder
      ensures Abs() == ClearCache(old(Abs()))
    {
      cache, accessOrder := map[], [];
    }

    method Delete(a: Anchor)
      modifies this`cache, this`accessOrder, this`files
      ensures Abs() == DeletePolicy(old(Abs()), a)
    {
      cache := cache - {a};
      RemoveFromOrder(a);
      files := files - {a};
    }

    /** Expired entries leave the cache and the order, whatever order the map lists them in. */
    method EvictExpired(now: nat)
      modifies this`cache, this`accessOrder
      ensures exists expired ::
                ListsExpired(config, old(Abs()), now, expired) && Abs() == ForgetAll(old(Abs()), expired)
    {
      var todo := set a | a in cache && now > cache[a].added + config.ttl;
      var expired: seq<Anchor> := [];
      while todo != {}
        invariant forall a :: a in todo || a in expired <==> a in cache && Expired(config, cache[a], now)
        invariant forall a :: a in expired ==> a !in todo
        invariant NoRepeats(expired)
        decreases todo
      {
        var a :| a in todo;
        todo := todo - {a};
        expired := expired + [a];
      }
      for i := 0 to |expired|
        invariant ForgetAll(old(Abs()), expired) == ForgetAll(Abs(), expired[i..])
        invariant files == old(files)
      {
        assert expired[i..][1..] == expired[i + 1..];
        cache := cache - {expired[i]};
        RemoveFromOrder(expired[i]);
      }
    }
  }
}
