/** What every run of policy-store operations keeps: order, size, recency, content addressing, transparency. */
module PolicyTheorems {
  import opened Common
  import opened PolicyStore

  /** One public call; `Disk` is somebody else rewriting the policy directory. */
  datatype Op =
    | Store(file: PolicyFile)
    | Get(anchor: Anchor)
    | Verify(anchor: Anchor, data: Option<string>)
    | Peek(anchor: Anchor)
    | Delete(anchor: Anchor)
    | Clear
    | Sweep(expired: seq<Anchor>)
    | Disk(files: map<Anchor, string>)

  datatype Call = Call(op: Op, time: Time)

  function Apply(cx: Codec, cfg: Config, st: State, c: Call): State {
    match c.op
    case Store(f) => StorePolicy(cx, st, f, c.time).0
    case Get(a) => GetPolicy(cx, cfg, st, a, c.time).0
    case Verify(a, data) => VerifyAndGet(cx, cfg, st, a, data, c.time).0
    case Peek(a) => GetFromCache(cfg, st, a, c.time.now).0
    case Delete(a) => DeletePolicy(st, a)
    case Clear => ClearCache(st)
    case Sweep(expired) => ForgetAll(st, expired)
    case Disk(files) => st.(files := files)
  }

  function Run(cx: Codec, cfg: Config, st: State, calls: seq<Call>): State
    decreases |calls|
  {
    if calls == [] then st else Run(cx, cfg, Apply(cx, cfg, st, calls[0]), calls[1..])
  }

  /** Whether a call goes through `store_policy`. */
  predicate Stores(op: Op) {
    op.Store? || (op.Verify? && op.data.Some?)
  }

  function StoreCount(calls: seq<Call>): nat {
    if calls == [] then 0 else (if Stores(calls[0].op) then 1 else 0) + StoreCount(calls[1..])
  }

  // ---------------------------------------------------------------- order and size

  /** Cached anchors that the access order does not know: put there by `store_policy`, not read since. */
  ghost function Unlisted(st: State): set<Anchor> {
    st.cache.Keys - Elements(st.order)
  }

  ghost predicate Ordered(st: State) {
    NoRepeats(st.order) && Elements(st.order) <= st.cache.Keys
  }

  ghost predicate Bounded(cfg: Config, st: State, stores: nat) {
    && |Unlisted(st)| <= stores
    && |st.cache| <= Limit(cfg) + stores
  }

  lemma {:induction false} RemoveFirstElements(order: seq<Anchor>, a: Anchor)
    requires NoRepeats(order)
    ensures NoRepeats(RemoveFirst(order, a)) && Elements(RemoveFirst(order, a)) == Elements(order) - {a}
  {
    hide PositionOf;
    var i := PositionOf(order, a);
    var r := RemoveFirst(order, a);
    if i < |order| {
      assert forall k :: 0 <= k < |r| ==> r[k] == order[if k < i then k else k + 1];
      forall x | x in order && x != a ensures x in r {
        var k :| 0 <= k < |order| && order[k] == x;
        assert r[if k < i then k else k - 1] == x;
      }
    }
  }

  lemma {:induction false} MoveToBack(order: seq<Anchor>, a: Anchor)
    requires NoRepeats(order)
    ensures var r := RemoveFirst(order, a) + [a]; NoRepeats(r) && Elements(r) == Elements(order) + {a}
  {
    RemoveFirstElements(order, a);
    hide RemoveFirst;
    var front := RemoveFirst(order, a);
    var r := front + [a];
    assert a !in Elements(front);
    forall x ensures x in Elements(r) <==> x in Elements(order) + {a} {
      assert x in r <==> x in front || x == a;
      assert x in front <==> x in Elements(front);
    }
  }

  lemma {:induction false} ForgetKeeps(cfg: Config, st: State, a: Anchor, stores: nat)
    requires Ordered(st) && Bounded(cfg, st, stores)
    ensures Ordered(Forget(st, a)) && Bounded(cfg, Forget(st, a), stores)
  {
    RemoveFirstElements(st.order, a);
    SubsetIsSmaller(Unlisted(Forget(st, a)), Unlisted(st));
    SubsetIsSmaller(Forget(st, a).cache.Keys, st.cache.Keys);
  }

  lemma {:induction false} ForgetAllKeeps(cfg: Config, st: State, anchors: seq<Anchor>, stores: nat)
    requires Ordered(st) && Bounded(cfg, st, stores)
    ensures Ordered(ForgetAll(st, anchors)) && Bounded(cfg, ForgetAll(st, anchors), stores)
    decreases |anchors|
  {
    if anchors != [] {
      ForgetKeeps(cfg, st, anchors[0], stores);
      ForgetAllKeeps(cfg, Forget(st, anchors[0]), anchors[1..], stores);
    }
  }

  lemma {:induction false} TouchKeeps(cfg: Config, st: State, a: Anchor, now: nat, stores: nat)
    requires Ordered(st) && Bounded(cfg, st, stores) && a in st.cache
    ensures Ordered(Touch(st, a, now)) && Bounded(cfg, Touch(st, a, now), stores)
  {
    MoveToBack(st.order, a);
    assert Touch(st, a, now).cache.Keys == st.cache.Keys;
    SubsetIsSmaller(Unlisted(Touch(st, a, now)), Unlisted(st));
  }

  /** Eviction forgets the front of the order. */
  lemma {:induction false} EvictForgets(cfg: Config, st: State, a: Anchor)
    ensures |st.cache| >= cfg.maxSize && a !in st.cache && st.order != [] ==>
              Evict(cfg, st, a) == Forget(st, st.order[0])
    ensures !(|st.cache| >= cfg.maxSize && a !in st.cache && st.order != []) ==> Evict(cfg, st, a) == st
  {
  }

  lemma {:induction false} EvictKeeps(cfg: Config, st: State, a: Anchor, stores: nat)
    requires Ordered(st) && Bounded(cfg, st, stores)
    ensures Ordered(Evict(cfg, st, a)) && Bounded(cfg, Evict(cfg, st, a), stores)
    ensures a !in Evict(cfg, st, a).cache ==>
              |Evict(cfg, st, a).cache| < Limit(cfg) + stores
  {
    EvictForgets(cfg, st, a);
    hide Evict, RemoveFirst;
    if |st.cache| >= cfg.maxSize && a !in st.cache {
      if st.order == [] {
        assert Unlisted(st) == st.cache.Keys;
      } else {
        assert st.order[0] in Elements(st.order);
        ForgetKeeps(cfg, st, st.order[0], stores);
        hide Ordered, Unlisted;
        SizeAfterDrop(st.cache, st.order[0]);
      }
    }
  }

  /** Putting an entry and moving its anchor to the back of the order. */
  lemma {:induction false} PutAtBack(room: State, a: Anchor, e: Entry)
    requires Ordered(room)
    ensures var out := room.(cache := room.cache[a := e], order := RemoveFirst(room.order, a) + [a]);
            Ordered(out) && Unlisted(out) <= Unlisted(room) &&
              |out.cache| == if a in room.cache then |room.cache| else |room.cache| + 1
  {
    MoveToBack(room.order, a);
    hide RemoveFirst, NoRepeats, Elements;
    SizeAfterPut(room.cache, a, e);
  }

  lemma {:induction false} AddToCacheKeeps(cfg: Config, st: State, a: Anchor, p: TokenPolicy, now: nat, stores: nat)
    requires Ordered(st) && Bounded(cfg, st, stores)
    ensures Ordered(AddToCache(cfg, st, a, p, now)) && Bounded(cfg, AddToCache(cfg, st, a, p, now), stores)
  {
    EvictKeeps(cfg, st, a, stores);
    var room := Evict(cfg, st, a);
    PutAtBack(room, a, Entry(p, now, now));
    hide Evict, RemoveFirst, Ordered, Unlisted;
    SubsetIsSmaller(Unlisted(AddToCache(cfg, st, a, p, now)), Unlisted(room));
  }

  lemma {:induction false} StorePolicyKeeps(cx: Codec, cfg: Config, st: State, f: PolicyFile, t: Time, stores: nat)
    requires Ordered(st) && Bounded(cfg, st, stores)
    ensures Ordered(StorePolicy(cx, st, f, t).0) && Bounded(cfg, StorePolicy(cx, st, f, t).0, stores + 1)
  {
    var (out, r) := StorePolicy(cx, st, f, t);
    if r.Ok? {
      assert out.cache.Keys == st.cache.Keys + {r.value};
      SubsetIsSmaller(Unlisted(out), Unlisted(st) + {r.value});
    }
  }

  lemma {:induction false} GetPolicyKeeps(cx: Codec, cfg: Config, st: State, a: Anchor, t: Time, stores: nat)
    requires Ordered(st) && Bounded(cfg, st, stores)
    ensures Ordered(GetPolicy(cx, cfg, st, a, t).0) && Bounded(cfg, GetPolicy(cx, cfg, st, a, t).0, stores)
  {
    hide Ordered, Bounded, Forget, Touch, AddToCache;
    var loading := if a in st.cache && Expired(cfg, st.cache[a], t.now) then Forget(st, a) else st;
    ForgetKeeps(cfg, st, a, stores);
    var f := ReadFile(cx, loading.files, a);
    if f.Ok? {
      AddToCacheKeeps(cfg, loading, a, TokenPolicy(f.value, a, true, t.wall), t.now, stores);
    }
    if a in st.cache {
      TouchKeeps(cfg, st, a, t.now, stores);
    }
  }

  lemma {:induction false} VerifyAndGetKeeps(cx: Codec, cfg: Config, st: State, a: Anchor, data: Option<string>,
                                             t: Time, stores: nat)
    requires Ordered(st) && Bounded(cfg, st, stores)
    ensures var out := VerifyAndGet(cx, cfg, st, a, data, t).0;
            Ordered(out) && Bounded(cfg, out, stores + if data.Some? then 1 else 0)
  {
    match data
    case None => GetPolicyKeeps(cx, cfg, st, a, t, stores);
    case Some(json) =>
      assert Bounded(cfg, st, stores + 1);
      match cx.fromJson(json)
      case None =>
      case Some(f) =>
        StorePolicyKeeps(cx, cfg, st, f, t, stores);
        hide Ordered, Bounded, StorePolicy, GetPolicy;
        GetPolicyKeeps(cx, cfg, StorePolicy(cx, st, f, t).0, a, t, stores + 1);
  }

  lemma {:induction false} PeekKeeps(cfg: Config, st: State, a: Anchor, now: nat, stores: nat)
    requires Ordered(st) && Bounded(cfg, st, stores)
    ensures Ordered(GetFromCache(cfg, st, a, now).0) && Bounded(cfg, GetFromCache(cfg, st, a, now).0, stores)
  {
    hide Ordered, Bounded, Forget, Touch;
    ForgetKeeps(cfg, st, a, stores);
    if a in st.cache {
      TouchKeeps(cfg, st, a, now, stores);
    }
  }

  lemma {:induction false} DeleteKeeps(cfg: Config, st: State, a: Anchor, stores: nat)
    requires Ordered(st) && Bounded(cfg, st, stores)
    ensures Ordered(DeletePolicy(st, a)) && Bounded(cfg, DeletePolicy(st, a), stores)
  {
    ForgetKeeps(cfg, st, a, stores);
    hide Forget;
    assert Unlisted(DeletePolicy(st, a)) == Unlisted(Forget(st, a));
  }

  lemma {:induction false} CallKeeps(cx: Codec, cfg: Config, st: State, c: Call, stores: nat)
    requires Ordered(st) && Bounded(cfg, st, stores)
    ensures Ordered(Apply(cx, cfg, st, c))
    ensures Bounded(cfg, Apply(cx, cfg, st, c), stores + if Stores(c.op) then 1 else 0)
  {
    hide Ordered, Bounded, ClearCache, StorePolicy, GetPolicy, VerifyAndGet, GetFromCache, DeletePolicy, ForgetAll;
    match c.op
    case Store(f) => StorePolicyKeeps(cx, cfg, st, f, c.time, stores);
    case Get(a) => GetPolicyKeeps(cx, cfg, st, a, c.time, stores);
    case Verify(a, data) => VerifyAndGetKeeps(cx, cfg, st, a, data, c.time, stores);
    case Peek(a) => PeekKeeps(cfg, st, a, c.time.now, stores);
    case Delete(a) => DeleteKeeps(cfg, st, a, stores);
    case Clear => DiskOrClearKeeps(cfg, st, st.files, stores);
    case Sweep(expired) => ForgetAllKeeps(cfg, st, expired, stores);
    case Disk(files) => DiskOrClearKeeps(cfg, st, files, stores);
  }

  lemma {:induction false} DiskOrClearKeeps(cfg: Config, st: State, files: map<Anchor, string>, stores: nat)
    requires Ordered(st) && Bounded(cfg, st, stores)
    ensures Ordered(st.(files := files)) && Bounded(cfg, st.(files := files), stores)
    ensures Ordered(ClearCache(st)) && Bounded(cfg, ClearCache(st), stores)
  {
    assert Unlisted(st.(files := files)) == Unlisted(st);
    assert Unlisted(ClearCache(st)) == {};
  }

  /**
   In every run the access order is duplicate-free and within the cache, and the cache holds at
   most max(1, maxSize) entries plus one per `store_policy` call.
   */
  lemma {:induction false} RunKeepsOrderAndSize(cx: Codec, cfg: Config, st: State, calls: seq<Call>, stores: nat,
                                                total: nat)
    requires Ordered(st) && Bounded(cfg, st, stores) && total == stores + StoreCount(calls)
    ensures Ordered(Run(cx, cfg, st, calls)) && Bounded(cfg, Run(cx, cfg, st, calls), total)
    decreases |calls|
  {
    if calls != [] {
      CallKeeps(cx, cfg, st, calls[0], stores);
      hide Apply, Ordered, Bounded;
      var more := stores + if Stores(calls[0].op) then 1 else 0;
      RunKeepsOrderAndSize(cx, cfg, Apply(cx, cfg, st, calls[0]), calls[1..], more, total);
    }
  }

  /** From a new store over any directory: at most max(1, maxSize) entries plus one per `store_policy` call. */
  lemma {:induction false} CacheStaysBounded(cx: Codec, cfg: Config, files: map<Anchor, string>, calls: seq<Call>)
    ensures var st := Run(cx, cfg, EMPTY.(files := files), calls);
            && NoRepeats(st.order) && Elements(st.order) <= st.cache.Keys
            && |st.cache| <= Limit(cfg) + StoreCount(calls)
  {
    assert Unlisted(EMPTY.(files := files)) == {};
    RunKeepsOrderAndSize(cx, cfg, EMPTY.(files := files), calls, 0, StoreCount(calls));
  }

  // ---------------------------------------------------------------- recency

  /** Listed anchors are cached, and accessed no later than those listed after them. */
  ghost predicate ByAccess(cache: map<Anchor, Entry>, order: seq<Anchor>) {
    && (forall i :: 0 <= i < |order| ==> order[i] in cache)
    && (forall i, j :: 0 <= i < j < |order| ==> cache[order[i]].lastAccess <= cache[order[j]].lastAccess)
  }

  /** The order lists exactly the cached anchors, least recently used first. */
  ghost predicate Recent(st: State, now: nat) {
    && Ordered(st) && Unlisted(st) == {}
    && ByAccess(st.cache, st.order)
    && (forall a :: a in st.cache ==> st.cache[a].lastAccess <= now)
  }

  /** The entry that makes room is one accessed no later than any other. */
  lemma {:induction false} EvictionIsLru(cfg: Config, st: State, a: Anchor, now: nat)
    requires Recent(st, now) && Evict(cfg, st, a) != st
    ensures exists victim ::
              && victim in st.cache && Evict(cfg, st, a).cache == st.cache - {victim}
              && forall b :: b in st.cache ==> st.cache[victim].lastAccess <= st.cache[b].lastAccess
  {
    EvictForgets(cfg, st, a);
    hide Evict, RemoveFirst;
    forall b | b in st.cache ensures st.cache[st.order[0]].lastAccess <= st.cache[b].lastAccess {
      FrontIsOldest(st, b, now);
    }
  }

  lemma {:induction false} FrontIsOldest(st: State, b: Anchor, now: nat)
    requires Recent(st, now) && b in st.cache
    ensures st.order != [] && st.order[0] in st.cache && st.cache[st.order[0]].lastAccess <= st.cache[b].lastAccess
  {
    hide NoRepeats;
    assert b !in Unlisted(st);
    var j :| 0 <= j < |st.order| && st.order[j] == b;
  }

  lemma {:induction false} RemovingKeepsByAccess(cache: map<Anchor, Entry>, order: seq<Anchor>, i: nat)
    requires ByAccess(cache, order) && NoRepeats(order) && i < |order|
    ensures ByAccess(cache - {order[i]}, order[..i] + order[i + 1..])
  {
    var out := order[..i] + order[i + 1..];
    assert forall k :: 0 <= k < |out| ==> out[k] == order[if k < i then k else k + 1];
  }

  lemma {:induction false} ForgetKeepsRecent(st: State, a: Anchor, now: nat)
    requires Recent(st, now)
    ensures Recent(Forget(st, a), now)
  {
    var i := PositionOf(st.order, a);
    RemoveFirstElements(st.order, a);
    if i < |st.order| {
      RemovingKeepsByAccess(st.cache, st.order, i);
    } else {
      assert a !in Elements(st.order) && a !in Unlisted(st);
      assert st.cache - {a} == st.cache;
    }
    hide PositionOf, NoRepeats, ByAccess;
    assert Unlisted(Forget(st, a)) == {};
  }

  lemma {:induction false} ForgetAllKeepsRecent(st: State, anchors: seq<Anchor>, now: nat)
    requires Recent(st, now)
    ensures Recent(ForgetAll(st, anchors), now)
    decreases |anchors|
  {
    if anchors != [] {
      ForgetKeepsRecent(st, anchors[0], now);
      hide Forget, Recent;
      ForgetAllKeepsRecent(Forget(st, anchors[0]), anchors[1..], now);
    }
  }

  lemma {:induction false} EvictKeepsRecent(cfg: Config, st: State, a: Anchor, now: nat)
    requires Recent(st, now)
    ensures Recent(Evict(cfg, st, a), now)
  {
    if Evict(cfg, st, a) != st {
      EvictForgets(cfg, st, a);
      ForgetKeepsRecent(st, st.order[0], now);
    }
  }

  /** Whatever sets an entry to be accessed at `now` and moves its anchor to the back keeps recency. */
  lemma {:induction false} RefreshKeepsRecent(st: State, a: Anchor, e: Entry, before: nat, now: nat)
    requires Recent(st, before) && before <= now && e.lastAccess == now
    ensures Recent(st.(cache := st.cache[a := e], order := RemoveFirst(st.order, a) + [a]), now)
  {
    var gone := Forget(st, a);
    ForgetKeepsRecent(st, a, before);
    MoveToBack(st.order, a);
    hide RemoveFirst;
    var out := st.(cache := st.cache[a := e], order := gone.order + [a]);
    assert Unlisted(out) == {};
    hide Unlisted, Ordered, NoRepeats;
    forall i | 0 <= i < |gone.order| ensures out.cache[gone.order[i]] == gone.cache[gone.order[i]] {
    }
    assert ByAccess(out.cache, out.order);
  }

  lemma {:induction false} GetKeepsRecent(cx: Codec, cfg: Config, st: State, a: Anchor, t: Time, before: nat)
    requires Recent(st, before) && before <= t.now
    ensures Recent(GetPolicy(cx, cfg, st, a, t).0, t.now)
  {
    LaterKeepsRecent(st, before, t.now);
    var loading := if a in st.cache && Expired(cfg, st.cache[a], t.now) then Forget(st, a) else st;
    ForgetKeepsRecent(st, a, t.now);
    EvictKeepsRecent(cfg, loading, a, t.now);
    var f := ReadFile(cx, loading.files, a);
    if f.Ok? {
      var p := TokenPolicy(f.value, a, true, t.wall);
      RefreshKeepsRecent(Evict(cfg, loading, a), a, Entry(p, t.now, t.now), t.now, t.now);
    }
    if a in st.cache {
      RefreshKeepsRecent(st, a, st.cache[a].(lastAccess := t.now), t.now, t.now);
    }
    hide Recent, RemoveFirst, Evict;
  }

  lemma {:induction false} LaterKeepsRecent(st: State, before: nat, now: nat)
    requires Recent(st, before) && before <= now
    ensures Recent(st, now)
  {
  }

  lemma {:induction false} CallKeepsRecent(cx: Codec, cfg: Config, st: State, c: Call, before: nat)
    requires Recent(st, before) && before <= c.time.now && !Stores(c.op)
    ensures Recent(Apply(cx, cfg, st, c), c.time.now)
  {
    LaterKeepsRecent(st, before, c.time.now);
    match c.op
    case Get(a) => GetKeepsRecent(cx, cfg, st, a, c.time, before);
    case Verify(a, data) => GetKeepsRecent(cx, cfg, st, a, c.time, before);
    case Peek(a) =>
      ForgetKeepsRecent(st, a, c.time.now);
      if a in st.cache {
        RefreshKeepsRecent(st, a, st.cache[a].(lastAccess := c.time.now), c.time.now, c.time.now);
      }
    case Delete(a) =>
      ForgetKeepsRecent(st, a, c.time.now);
      assert Unlisted(DeletePolicy(st, a)) == Unlisted(Forget(st, a));
    case Clear => assert Unlisted(ClearCache(st)) == {};
    case Sweep(expired) => ForgetAllKeepsRecent(st, expired, c.time.now);
    case Disk(files) => assert Unlisted(st.(files := files)) == Unlisted(st);
  }

  ghost predicate InTimeOrder(calls: seq<Call>, from: nat) {
    forall i :: 0 <= i < |calls| ==> from <= calls[i].time.now && forall j :: i < j < |calls| ==>
      calls[i].time.now <= calls[j].time.now
  }

  /** In runs without `store_policy` the order is exactly the cached anchors by last access, so eviction is true LRU. */
  lemma {:induction false} RunsWithoutStoreAreLru(cx: Codec, cfg: Config, st: State, calls: seq<Call>, from: nat)
    requires Recent(st, from) && InTimeOrder(calls, from)
    requires forall i :: 0 <= i < |calls| ==> !Stores(calls[i].op)
    ensures exists now :: Recent(Run(cx, cfg, st, calls), now)
    decreases |calls|
  {
    if calls == [] {
      assert Recent(Run(cx, cfg, st, calls), from);
    } else {
      CallKeepsRecent(cx, cfg, st, calls[0], from);
      hide Apply, Recent;
      var next := Apply(cx, cfg, st, calls[0]);
      RunsWithoutStoreAreLru(cx, cfg, next, calls[1..], calls[0].time.now);
      var now :| Recent(Run(cx, cfg, next, calls[1..]), now);
      assert Run(cx, cfg, st, calls) == Run(cx, cfg, next, calls[1..]);
    }
  }

  // ---------------------------------------------------------------- content addressing and transparency

  ghost predicate Addressed(cx: Codec, st: State) {
    forall a :: a in st.cache ==> cx.anchorOf(st.cache[a].policy.file) == Some(a) && st.cache[a].policy.anchor == a
  }

  lemma {:induction false} ForgetAllShrinks(st: State, anchors: seq<Anchor>)
    ensures forall a :: a in ForgetAll(st, anchors).cache ==>
      a in st.cache && ForgetAll(st, anchors).cache[a] == st.cache[a]
    ensures ForgetAll(st, anchors).files == st.files
    decreases |anchors|
  {
    if anchors != [] {
      ForgetAllShrinks(Forget(st, anchors[0]), anchors[1..]);
    }
  }

  lemma {:induction false} LoadCaches(cx: Codec, cfg: Config, st: State, a: Anchor, t: Time)
    ensures var out := Load(cx, cfg, st, a, t).0;
            && out.files == st.files
            && forall b :: b in out.cache ==>
                 || (b in st.cache && out.cache[b].policy == st.cache[b].policy)
                 || (b == a && out.cache[b].policy.anchor == a &&
                   ReadFile(cx, st.files, a) == Ok(out.cache[b].policy.file))
  {
    hide RemoveFirst, ReadFile;
  }

  /** A call of `get_policy` leaves the disk alone and caches only what it cached before or just read. */
  lemma {:induction false} GetPolicyCaches(cx: Codec, cfg: Config, st: State, a: Anchor, t: Time)
    ensures var out := GetPolicy(cx, cfg, st, a, t).0;
            && out.files == st.files
            && forall b :: b in out.cache ==>
                 || (b in st.cache && out.cache[b].policy == st.cache[b].policy)
                 || (b == a && out.cache[b].policy.anchor == a &&
                   ReadFile(cx, st.files, a) == Ok(out.cache[b].policy.file))
  {
    LoadCaches(cx, cfg, st, a, t);
    LoadCaches(cx, cfg, Forget(st, a), a, t);
    hide RemoveFirst, ReadFile, Load;
  }

  lemma {:induction false} GetKeepsAddressed(cx: Codec, cfg: Config, st: State, a: Anchor, t: Time)
    requires Addressed(cx, st)
    ensures Addressed(cx, GetPolicy(cx, cfg, st, a, t).0)
  {
    hide GetPolicy;
    GetPolicyCaches(cx, cfg, st, a, t);
  }

  lemma {:induction false} StoreKeepsAddressed(cx: Codec, st: State, f: PolicyFile, t: Time)
    requires Addressed(cx, st)
    ensures Addressed(cx, StorePolicy(cx, st, f, t).0)
  {
  }

  lemma {:induction false} VerifyKeepsAddressed(cx: Codec, cfg: Config, st: State, a: Anchor, data: Option<string>,
                                                t: Time)
    requires Addressed(cx, st)
    ensures Addressed(cx, VerifyAndGet(cx, cfg, st, a, data, t).0)
  {
    hide GetPolicy, StorePolicy, Addressed, AllZero;
    GetKeepsAddressed(cx, cfg, st, a, t);
    if data.Some? && cx.fromJson(data.value).Some? {
      var f := cx.fromJson(data.value).value;
      StoreKeepsAddressed(cx, st, f, t);
      GetKeepsAddressed(cx, cfg, StorePolicy(cx, st, f, t).0, a, t);
    }
  }

  /** Dropping cached entries, touching one, or replacing the files keeps the rest addressed. */
  lemma {:induction false} PartStaysAddressed(cx: Codec, st: State, out: State)
    requires Addressed(cx, st)
    requires forall a :: a in out.cache ==> a in st.cache && out.cache[a].policy == st.cache[a].policy
    ensures Addressed(cx, out)
  {
  }

  lemma {:induction false} CallKeepsAddressed(cx: Codec, cfg: Config, st: State, c: Call)
    requires Addressed(cx, st)
    ensures Addressed(cx, Apply(cx, cfg, st, c))
  {
    hide RemoveFirst, Addressed, GetPolicy, StorePolicy, VerifyAndGet, ForgetAll;
    match c.op
    case Store(f) => StoreKeepsAddressed(cx, st, f, c.time);
    case Get(a) => GetKeepsAddressed(cx, cfg, st, a, c.time);
    case Verify(a, data) => VerifyKeepsAddressed(cx, cfg, st, a, data, c.time);
    case Sweep(expired) =>
      ForgetAllShrinks(st, expired);
      PartStaysAddressed(cx, st, ForgetAll(st, expired));
    case _ => PartStaysAddressed(cx, st, Apply(cx, cfg, st, c));
  }

  lemma {:induction false} RunKeepsAddressed(cx: Codec, cfg: Config, st: State, calls: seq<Call>)
    requires Addressed(cx, st)
    ensures Addressed(cx, Run(cx, cfg, st, calls))
    decreases |calls|
  {
    if calls != [] {
      CallKeepsAddressed(cx, cfg, st, calls[0]);
      hide Apply, Addressed;
      RunKeepsAddressed(cx, cfg, Apply(cx, cfg, st, calls[0]), calls[1..]);
    }
  }

  /** After any run, over any disk contents, a policy returned for an anchor has that anchor. */
  lemma {:induction false} ReturnedPolicyHasItsAnchor(cx: Codec, cfg: Config, calls: seq<Call>,
                                                      files: map<Anchor, string>, a: Anchor, t: Time)
    ensures var r := GetPolicy(cx, cfg, Run(cx, cfg, EMPTY.(files := files), calls), a, t).1;
            r.Ok? ==> cx.anchorOf(r.value.file) == Some(a) && r.value.anchor == a
  {
    RunKeepsAddressed(cx, cfg, EMPTY.(files := files), calls);
  }

  /** Every cached policy is what a cacheless read of its file would give. */
  ghost predicate Backed(cx: Codec, st: State) {
    forall a :: a in st.cache ==> ReadFile(cx, st.files, a) == Ok(st.cache[a].policy.file)
  }

  /** Writing a policy and reading it back gives the same file in memory. */
  ghost predicate RoundTrips(cx: Codec, f: PolicyFile) {
    cx.toJson(f).Some? ==> cx.fromJson(cx.toJson(f).value) == Some(f)
  }

  ghost predicate Transparent(cx: Codec, op: Op) {
    && !op.Disk?
    && (op.Store? ==> RoundTrips(cx, op.file))
    && (op.Verify? && op.data.Some? && cx.fromJson(op.data.value).Some? ==>
      RoundTrips(cx, cx.fromJson(op.data.value).value))
  }

  lemma {:induction false} GetKeepsBacked(cx: Codec, cfg: Config, st: State, a: Anchor, t: Time)
    requires Backed(cx, st)
    ensures Backed(cx, GetPolicy(cx, cfg, st, a, t).0)
  {
    hide GetPolicy, ReadFile;
    GetPolicyCaches(cx, cfg, st, a, t);
  }

  lemma {:induction false} StoreKeepsBacked(cx: Codec, st: State, f: PolicyFile, t: Time)
    requires Backed(cx, st) && RoundTrips(cx, f)
    ensures Backed(cx, StorePolicy(cx, st, f, t).0)
  {
  }

  lemma {:induction false} VerifyKeepsBacked(cx: Codec, cfg: Config, st: State, a: Anchor, data: Option<string>,
                                             t: Time)
    requires Backed(cx, st) && Transparent(cx, Verify(a, data))
    ensures Backed(cx, VerifyAndGet(cx, cfg, st, a, data, t).0)
  {
    hide GetPolicy, StorePolicy, Backed, AllZero, RoundTrips;
    GetKeepsBacked(cx, cfg, st, a, t);
    if data.Some? && cx.fromJson(data.value).Some? {
      var f := cx.fromJson(data.value).value;
      StoreKeepsBacked(cx, st, f, t);
      GetKeepsBacked(cx, cfg, StorePolicy(cx, st, f, t).0, a, t);
    }
  }

  /** Dropping or touching cached entries, and deleting the files of dropped ones, keeps the rest backed. */
  lemma {:induction false} PartStaysBacked(cx: Codec, st: State, out: State)
    requires Backed(cx, st)
    requires forall a :: a in out.cache ==> a in st.cache && out.cache[a].policy == st.cache[a].policy
    requires forall a :: a in out.cache && a in st.files ==> a in out.files && out.files[a] == st.files[a]
    ensures Backed(cx, out)
  {
    forall a | a in out.cache ensures ReadFile(cx, out.files, a) == Ok(out.cache[a].policy.file) {
      assert a in st.cache && ReadFile(cx, st.files, a) == Ok(st.cache[a].policy.file);
    }
  }

  lemma {:induction false} CallKeepsBacked(cx: Codec, cfg: Config, st: State, c: Call)
    requires Backed(cx, st) && Transparent(cx, c.op)
    ensures Backed(cx, Apply(cx, cfg, st, c))
  {
    hide RemoveFirst, Backed, GetPolicy, StorePolicy, VerifyAndGet, ForgetAll, RoundTrips;
    match c.op
    case Store(f) => StoreKeepsBacked(cx, st, f, c.time);
    case Get(a) => GetKeepsBacked(cx, cfg, st, a, c.time);
    case Verify(a, data) => VerifyKeepsBacked(cx, cfg, st, a, data, c.time);
    case Sweep(expired) =>
      ForgetAllShrinks(st, expired);
      PartStaysBacked(cx, st, ForgetAll(st, expired));
    case Peek(_) => PartStaysBacked(cx, st, Apply(cx, cfg, st, c));
    case Delete(_) => PartStaysBacked(cx, st, Apply(cx, cfg, st, c));
    case Clear => PartStaysBacked(cx, st, Apply(cx, cfg, st, c));
  }

  lemma {:induction false} RunKeepsBacked(cx: Codec, cfg: Config, st: State, calls: seq<Call>)
    requires Backed(cx, st) && forall i :: 0 <= i < |calls| ==> Transparent(cx, calls[i].op)
    ensures Backed(cx, Run(cx, cfg, st, calls))
    decreases |calls|
  {
    if calls != [] {
      CallKeepsBacked(cx, cfg, st, calls[0]);
      hide Apply, Backed, Transparent;
      RunKeepsBacked(cx, cfg, Apply(cx, cfg, st, calls[0]), calls[1..]);
    }
  }

  /** While only the store touches the disk, `get_policy` answers exactly as a read without a cache. */
  lemma {:induction false} CacheIsTransparent(cx: Codec, cfg: Config, calls: seq<Call>, files: map<Anchor, string>,
                                              a: Anchor, t: Time)
    requires forall i :: 0 <= i < |calls| ==> Transparent(cx, calls[i].op)
    ensures var st := Run(cx, cfg, EMPTY.(files := files), calls);
            match GetPolicy(cx, cfg, st, a, t).1
            case Ok(p) => ReadFile(cx, st.files, a) == Ok(p.file)
            case Err(e) => ReadFile(cx, st.files, a) == Err(e)
  {
    RunKeepsBacked(cx, cfg, EMPTY.(files := files), calls);
    hide RemoveFirst;
  }

  /**
   The round trip is what transparency rests on: right after storing a policy the cached read gives
   it back, and the cacheless read does so exactly when the written file parses to that very policy.
   */
  lemma {:induction false} TransparentExactlyWhen(cx: Codec, cfg: Config, st: State, f: PolicyFile, t: Time)
    requires StorePolicy(cx, st, f, t).1.Ok?
    ensures var (after, r) := StorePolicy(cx, st, f, t);
            && GetPolicy(cx, cfg, after, r.value, t).1 == Ok(TokenPolicy(f, r.value, true, t.wall))
            && (ReadFile(cx, after.files, r.value) == Ok(f) <==> RoundTrips(cx, f))
  {
  }
}
