/** When the policy cache stays within its limit, and how far it outgrows it (dsm/src/cpta/policy_store.rs). */
module PolicySize {
  import opened Common
  import opened PolicyStore
  import opened PolicyTheorems

  // ---------------------------------------------------------------- growth

  /** Storing this file adds an entry: it can be written and its anchor is not cached. */
  predicate StoreAdds(cx: Codec, st: State, f: PolicyFile) {
    cx.anchorOf(f).Some? && cx.toJson(f).Some? && cx.anchorOf(f).value !in st.cache
  }

  /** `store_policy` never evicts, whatever the limit. */
  lemma {:induction false} StoreSize(cx: Codec, st: State, f: PolicyFile, t: Time)
    ensures |StorePolicy(cx, st, f, t).0.cache| == |st.cache| + if StoreAdds(cx, st, f) then 1 else 0
  {
    var (out, r) := StorePolicy(cx, st, f, t);
    if r.Ok? {
      SizeAfterPut(st.cache, r.value, out.cache[r.value]);
    }
  }

  /** A run of `store_policy` calls on writable files with different anchors, none of them cached. */
  ghost predicate FreshStores(cx: Codec, st: State, calls: seq<Call>) {
    && (forall i :: 0 <= i < |calls| ==> calls[i].op.Store? && StoreAdds(cx, st, calls[i].op.file))
    && (forall i, j :: 0 <= i < j < |calls| ==> cx.anchorOf(calls[i].op.file) != cx.anchorOf(calls[j].op.file))
  }

  /** Each of them adds an entry: the excess over the limit is as large as one likes. */
  lemma {:induction false} StoresOutgrowTheLimit(cx: Codec, cfg: Config, st: State, calls: seq<Call>)
    requires FreshStores(cx, st, calls)
    ensures |Run(cx, cfg, st, calls).cache| == |st.cache| + |calls|
    decreases |calls|
  {
    if calls != [] {
      var next := StorePolicy(cx, st, calls[0].op.file, calls[0].time).0;
      StoreSize(cx, st, calls[0].op.file, calls[0].time);
      FreshStoresStep(cx, st, calls, next);
      hide FreshStores, StorePolicy;
      StoresOutgrowTheLimit(cx, cfg, next, calls[1..]);
    }
  }

  lemma {:induction false} FreshStoresStep(cx: Codec, st: State, calls: seq<Call>, next: State)
    requires calls != [] && FreshStores(cx, st, calls)
    requires next == StorePolicy(cx, st, calls[0].op.file, calls[0].time).0
    ensures FreshStores(cx, next, calls[1..])
  {
    var rest := calls[1..];
    forall i | 0 <= i < |rest| ensures rest[i].op.Store? && StoreAdds(cx, next, rest[i].op.file) {
      assert rest[i] == calls[i + 1];
      assert cx.anchorOf(calls[0].op.file) != cx.anchorOf(calls[i + 1].op.file);
    }
    forall i, j | 0 <= i < j < |rest| ensures cx.anchorOf(rest[i].op.file) != cx.anchorOf(rest[j].op.file) {
      assert rest[i] == calls[i + 1] && rest[j] == calls[j + 1];
    }
  }

  // ---------------------------------------------------------------- one call

  predicate Within(cfg: Config, st: State) {
    |st.cache| <= Limit(cfg)
  }

  predicate Full(cfg: Config, st: State) {
    |st.cache| >= Limit(cfg)
  }

  /** Loading this anchor adds an entry to a full cache: the access order is empty, so nothing is evicted. */
  predicate LoadAdds(cx: Codec, st: State, a: Anchor) {
    a !in st.cache && ReadFile(cx, st.files, a).Ok? && st.order == []
  }

  /** The call takes a cache that is within its limit beyond it; decided before the call. */
  predicate Overflows(cx: Codec, cfg: Config, st: State, c: Call) {
    match c.op
    case Store(f) => Full(cfg, st) && StoreAdds(cx, st, f)
    case Get(a) => Full(cfg, st) && LoadAdds(cx, st, a)
    case Verify(a, None) => Full(cfg, st) && LoadAdds(cx, st, a)
    case Verify(a, Some(json)) =>
      && !AllZero(a) && cx.fromJson(json).Some?
      && var f := cx.fromJson(json).value;
         var (stored, r) := StorePolicy(cx, st, f, c.time);
         (Full(cfg, st) && StoreAdds(cx, st, f)) || (r.Ok? && Full(cfg, stored) && LoadAdds(cx, stored, a))
    case _ => false
  }

  /** After the call, and between the two halves of `verify_and_get_policy`, the cache is within its limit. */
  predicate CallStaysWithin(cx: Codec, cfg: Config, st: State, c: Call) {
    && Within(cfg, Apply(cx, cfg, st, c))
    && (c.op.Verify? && c.op.data.Some? && !AllZero(c.op.anchor) && cx.fromJson(c.op.data.value).Some? ==>
          Within(cfg, StorePolicy(cx, st, cx.fromJson(c.op.data.value).value, c.time).0))
  }

  lemma {:induction false} ForgetSize(st: State, a: Anchor)
    ensures |Forget(st, a).cache| == if a in st.cache then |st.cache| - 1 else |st.cache|
  {
    hide RemoveFirst;
    if a in st.cache {
      SizeAfterDrop(st.cache, a);
    } else {
      assert st.cache - {a} == st.cache;
    }
  }

  lemma {:induction false} ForgetAllSize(st: State, anchors: seq<Anchor>)
    ensures |ForgetAll(st, anchors).cache| <= |st.cache|
    decreases |anchors|
  {
    if anchors != [] {
      ForgetSize(st, anchors[0]);
      hide Forget;
      ForgetAllSize(Forget(st, anchors[0]), anchors[1..]);
    }
  }

  lemma {:induction false} TouchSize(st: State, a: Anchor, now: nat)
    requires a in st.cache
    ensures |Touch(st, a, now).cache| == |st.cache|
  {
    hide RemoveFirst;
    SizeAfterPut(st.cache, a, st.cache[a].(lastAccess := now));
  }

  /** A load keeps the size when it evicts, and adds one entry otherwise. */
  lemma {:induction false} AddToCacheSize(cfg: Config, st: State, a: Anchor, p: TokenPolicy, now: nat)
    requires Ordered(st) && a !in st.cache
    ensures |AddToCache(cfg, st, a, p, now).cache| ==
            if |st.cache| >= cfg.maxSize && st.order != [] then |st.cache| else |st.cache| + 1
  {
    hide RemoveFirst;
    var room := Evict(cfg, st, a);
    if |st.cache| >= cfg.maxSize && st.order != [] {
      assert st.order[0] in Elements(st.order);
      SizeAfterDrop(st.cache, st.order[0]);
    }
    SizeAfterPut(room.cache, a, Entry(p, now, now));
  }

  lemma {:induction false} LoadWithinExactlyWhen(cx: Codec, cfg: Config, st: State, a: Anchor, t: Time)
    requires Ordered(st) && Within(cfg, st) && a !in st.cache
    ensures Within(cfg, Load(cx, cfg, st, a, t).0) <==> !(Full(cfg, st) && LoadAdds(cx, st, a))
  {
    hide AddToCache, ReadFile;
    var f := ReadFile(cx, st.files, a);
    if f.Ok? {
      AddToCacheSize(cfg, st, a, TokenPolicy(f.value, a, true, t.wall), t.now);
    }
  }

  lemma {:induction false} GetWithinExactlyWhen(cx: Codec, cfg: Config, st: State, a: Anchor, t: Time)
    requires Ordered(st) && Within(cfg, st)
    ensures Within(cfg, GetPolicy(cx, cfg, st, a, t).0) <==> !(Full(cfg, st) && LoadAdds(cx, st, a))
  {
    if a !in st.cache {
      LoadWithinExactlyWhen(cx, cfg, st, a, t);
    } else if Expired(cfg, st.cache[a], t.now) {
      ForgetSize(st, a);
      ForgetIsOrdered(st, a);
      LoadWithinExactlyWhen(cx, cfg, Forget(st, a), a, t);
    } else {
      TouchSize(st, a, t.now);
    }
    hide Load, Forget, Touch, ReadFile;
  }

  lemma {:induction false} ForgetIsOrdered(st: State, a: Anchor)
    requires Ordered(st)
    ensures Ordered(Forget(st, a)) && a !in Forget(st, a).cache
  {
    RemoveFirstElements(st.order, a);
    hide RemoveFirst;
  }

  lemma {:induction false} StoreIsOrdered(cx: Codec, st: State, f: PolicyFile, t: Time)
    requires Ordered(st)
    ensures Ordered(StorePolicy(cx, st, f, t).0)
  {
  }

  lemma {:induction false} VerifyWithinExactlyWhen(cx: Codec, cfg: Config, st: State, c: Call)
    requires Ordered(st) && Within(cfg, st) && c.op.Verify?
    ensures CallStaysWithin(cx, cfg, st, c) <==> !Overflows(cx, cfg, st, c)
  {
    GetWithinExactlyWhen(cx, cfg, st, c.op.anchor, c.time);
    if c.op.data.Some? && cx.fromJson(c.op.data.value).Some? {
      var f := cx.fromJson(c.op.data.value).value;
      StoreSize(cx, st, f, c.time);
      StoreIsOrdered(cx, st, f, c.time);
      hide GetPolicy, LoadAdds, AllZero, Ordered;
      var stored := StorePolicy(cx, st, f, c.time).0;
      if Within(cfg, stored) {
        GetWithinExactlyWhen(cx, cfg, stored, c.op.anchor, c.time);
      }
    }
  }

  lemma {:induction false} CallWithinExactlyWhen(cx: Codec, cfg: Config, st: State, c: Call)
    requires Ordered(st) && Within(cfg, st)
    ensures CallStaysWithin(cx, cfg, st, c) <==> !Overflows(cx, cfg, st, c)
  {
    hide GetPolicy, StorePolicy, VerifyAndGet, ForgetAll, Forget, Touch, LoadAdds, StoreAdds, Ordered;
    match c.op
    case Store(f) => StoreSize(cx, st, f, c.time);
    case Get(a) => GetWithinExactlyWhen(cx, cfg, st, a, c.time);
    case Verify(a, data) => VerifyWithinExactlyWhen(cx, cfg, st, c);
    case Peek(a) =>
      ForgetSize(st, a);
      if a in st.cache {
        TouchSize(st, a, c.time.now);
      }
    case Delete(a) => ForgetSize(st, a);
    case Sweep(expired) => ForgetAllSize(st, expired);
    case _ =>
  }

  // ---------------------------------------------------------------- whole runs

  predicate RunStaysWithin(cx: Codec, cfg: Config, st: State, calls: seq<Call>)
    decreases |calls|
  {
    calls == [] ||
    (CallStaysWithin(cx, cfg, st, calls[0]) && RunStaysWithin(cx, cfg, Apply(cx, cfg, st, calls[0]), calls[1..]))
  }

  /** No call of the run meets a state in which it overflows the cache. */
  predicate NeverOverflows(cx: Codec, cfg: Config, st: State, calls: seq<Call>)
    decreases |calls|
  {
    calls == [] ||
    (!Overflows(cx, cfg, st, calls[0]) && NeverOverflows(cx, cfg, Apply(cx, cfg, st, calls[0]), calls[1..]))
  }

  lemma {:induction false} CallIsOrdered(cx: Codec, cfg: Config, st: State, c: Call)
    requires Ordered(st)
    ensures Ordered(Apply(cx, cfg, st, c))
  {
    SubsetIsSmaller(Unlisted(st), st.cache.Keys);
    hide Ordered, Apply;
    CallKeeps(cx, cfg, st, c, |st.cache|);
  }

  /**
   A run stays within max(1, maxSize) entries at every moment exactly when no call finds the cache
   full and then stores an uncached policy, or loads one while the access order is empty.
   */
  lemma {:induction false} StaysWithinExactlyWhen(cx: Codec, cfg: Config, st: State, calls: seq<Call>)
    requires Ordered(st) && Within(cfg, st)
    ensures RunStaysWithin(cx, cfg, st, calls) <==> NeverOverflows(cx, cfg, st, calls)
    decreases |calls|
  {
    if calls != [] {
      CallWithinExactlyWhen(cx, cfg, st, calls[0]);
      CallIsOrdered(cx, cfg, st, calls[0]);
      hide Ordered, Apply, Overflows;
      if !Overflows(cx, cfg, st, calls[0]) {
        StaysWithinExactlyWhen(cx, cfg, Apply(cx, cfg, st, calls[0]), calls[1..]);
      }
    }
  }

  lemma {:induction false} ListedNeverOverflows(cx: Codec, cfg: Config, st: State, calls: seq<Call>)
    requires Ordered(st) && Bounded(cfg, st, 0) && forall i :: 0 <= i < |calls| ==> !Stores(calls[i].op)
    ensures NeverOverflows(cx, cfg, st, calls)
    decreases |calls|
  {
    if calls != [] {
      assert !Stores(calls[0].op);
      assert st.order == [] ==> Unlisted(st) == st.cache.Keys;
      CallKeeps(cx, cfg, st, calls[0], 0);
      hide Ordered, Apply;
      ListedNeverOverflows(cx, cfg, Apply(cx, cfg, st, calls[0]), calls[1..]);
    }
  }

  /** Without `store_policy` a new store never exceeds its limit, over any directory. */
  lemma {:induction false} RunsWithoutStoreStayWithin(cx: Codec, cfg: Config, files: map<Anchor, string>,
                                                      calls: seq<Call>)
    requires forall i :: 0 <= i < |calls| ==> !Stores(calls[i].op)
    ensures RunStaysWithin(cx, cfg, EMPTY.(files := files), calls)
  {
    var st := EMPTY.(files := files);
    assert Unlisted(st) == {};
    ListedNeverOverflows(cx, cfg, st, calls);
    StaysWithinExactlyWhen(cx, cfg, st, calls);
  }

  // ---------------------------------------------------------------- stored entries are never evicted

  /** The call gets as far as its lookup. */
  predicate LooksUp(cx: Codec, a: Anchor, data: Option<string>) {
    data.None? ||
    (&& !AllZero(a) && cx.fromJson(data.value).Some?
     && cx.anchorOf(cx.fromJson(data.value).value).Some? && cx.toJson(cx.fromJson(data.value).value).Some?)
  }

  /** The call reads, deletes or sweeps away the entry of `a` itself. */
  predicate Touches(cx: Codec, op: Op, a: Anchor) {
    match op
    case Get(b) => b == a
    case Peek(b) => b == a
    case Verify(b, data) => b == a && LooksUp(cx, b, data)
    case Delete(b) => b == a
    case Clear => true
    case Sweep(expired) => a in expired
    case Store(_) => false
    case Disk(_) => false
  }

  lemma {:induction false} ForgetUnlisted(st: State, b: Anchor, a: Anchor)
    requires Ordered(st) && a in Unlisted(st)
    ensures a in Unlisted(Forget(st, b)) <==> a != b
  {
    RemoveFirstElements(st.order, b);
    hide RemoveFirst;
  }

  lemma {:induction false} ForgetAllUnlisted(st: State, anchors: seq<Anchor>, a: Anchor)
    requires Ordered(st) && a in Unlisted(st)
    ensures a in Unlisted(ForgetAll(st, anchors)) <==> a !in anchors
    decreases |anchors|
  {
    if anchors != [] {
      ForgetUnlisted(st, anchors[0], a);
      ForgetIsOrdered(st, anchors[0]);
      if anchors[0] == a {
        ForgetAllShrinks(Forget(st, a), anchors[1..]);
      } else {
        hide Forget, Unlisted;
        ForgetAllUnlisted(Forget(st, anchors[0]), anchors[1..], a);
      }
    }
  }

  lemma {:induction false} TouchUnlisted(st: State, b: Anchor, now: nat, a: Anchor)
    requires Ordered(st) && a in Unlisted(st) && b in st.cache
    ensures a in Unlisted(Touch(st, b, now)) <==> a != b
  {
    MoveToBack(st.order, b);
    hide RemoveFirst;
  }

  /** The victim of an eviction is listed, so an unlisted entry stays. */
  lemma {:induction false} AddToCacheUnlisted(cfg: Config, st: State, b: Anchor, p: TokenPolicy, now: nat, a: Anchor)
    requires Ordered(st) && a in Unlisted(st) && b != a
    ensures a in Unlisted(AddToCache(cfg, st, b, p, now))
  {
    EvictForgets(cfg, st, b);
    var room := Evict(cfg, st, b);
    if room != st {
      assert st.order[0] in Elements(st.order);
      ForgetUnlisted(st, st.order[0], a);
      ForgetIsOrdered(st, st.order[0]);
    }
    hide Evict;
    MoveToBack(room.order, b);
    hide RemoveFirst;
  }

  /** Loading puts the anchor in the order. */
  lemma {:induction false} LoadedIsListed(cfg: Config, st: State, a: Anchor, p: TokenPolicy, now: nat)
    ensures a !in Unlisted(AddToCache(cfg, st, a, p, now))
  {
    hide RemoveFirst, Evict;
    var order := AddToCache(cfg, st, a, p, now).order;
    assert order[|order| - 1] == a;
  }

  lemma {:induction false} GetUnlisted(cx: Codec, cfg: Config, st: State, b: Anchor, t: Time, a: Anchor)
    requires Ordered(st) && a in Unlisted(st)
    ensures a in Unlisted(GetPolicy(cx, cfg, st, b, t).0) <==> a != b
  {
    hide AddToCache, Touch, ReadFile;
    var loading := if b in st.cache && Expired(cfg, st.cache[b], t.now) then Forget(st, b) else st;
    ForgetUnlisted(st, b, a);
    ForgetIsOrdered(st, b);
    hide Forget;
    var f := ReadFile(cx, loading.files, b);
    if f.Ok? {
      var p := TokenPolicy(f.value, b, true, t.wall);
      if a != b {
        AddToCacheUnlisted(cfg, loading, b, p, t.now, a);
      } else {
        LoadedIsListed(cfg, loading, a, p, t.now);
      }
    }
    if b in st.cache {
      TouchUnlisted(st, b, t.now, a);
    }
    assert a in st.cache;
    hide Unlisted;
  }

  lemma {:induction false} StoreUnlisted(cx: Codec, st: State, f: PolicyFile, t: Time, a: Anchor)
    requires a in Unlisted(st)
    ensures a in Unlisted(StorePolicy(cx, st, f, t).0)
  {
  }

  lemma {:induction false} VerifyUnlisted(cx: Codec, cfg: Config, st: State, b: Anchor, data: Option<string>, t: Time,
                                          a: Anchor)
    requires Ordered(st) && a in Unlisted(st)
    ensures a in Unlisted(VerifyAndGet(cx, cfg, st, b, data, t).0) <==> !(b == a && LooksUp(cx, b, data))
  {
    if data.None? {
      GetUnlisted(cx, cfg, st, b, t, a);
    } else if !AllZero(b) && cx.fromJson(data.value).Some? {
      var f := cx.fromJson(data.value).value;
      StoreUnlisted(cx, st, f, t, a);
      StoreIsOrdered(cx, st, f, t);
      hide Ordered, Unlisted, GetPolicy, AllZero;
      GetUnlisted(cx, cfg, StorePolicy(cx, st, f, t).0, b, t, a);
    }
    hide AllZero, GetPolicy, Unlisted;
  }

  /**
   An entry that `store_policy` put and nobody read since is never the victim of an eviction: one
   call leaves it so exactly when it does not itself read, delete or sweep away that entry.
   */
  lemma {:induction false} StoredIsNeverEvicted(cx: Codec, cfg: Config, st: State, c: Call, a: Anchor)
    requires Ordered(st) && a in Unlisted(st)
    ensures a in Unlisted(Apply(cx, cfg, st, c)) <==> !Touches(cx, c.op, a)
  {
    hide Ordered, GetPolicy, StorePolicy, VerifyAndGet, ForgetAll, LooksUp;
    match c.op
    case Store(f) => StoreUnlisted(cx, st, f, c.time, a);
    case Get(b) => GetUnlisted(cx, cfg, st, b, c.time, a);
    case Verify(b, data) => VerifyUnlisted(cx, cfg, st, b, data, c.time, a);
    case Peek(b) =>
      ForgetUnlisted(st, b, a);
      if b in st.cache {
        TouchUnlisted(st, b, c.time.now, a);
      }
      hide Forget, Touch;
    case Delete(b) =>
      ForgetUnlisted(st, b, a);
      hide RemoveFirst;
    case Sweep(expired) => ForgetAllUnlisted(st, expired, a);
    case Clear =>
    case Disk(_) =>
  }

  /** Over every run that leaves it alone the stored entry stays cached, however full the cache gets. */
  lemma {:induction false} StoredStaysCached(cx: Codec, cfg: Config, st: State, calls: seq<Call>, a: Anchor)
    requires Ordered(st) && a in Unlisted(st)
    requires forall i :: 0 <= i < |calls| ==> !Touches(cx, calls[i].op, a)
    ensures a in Run(cx, cfg, st, calls).cache
    decreases |calls|
  {
    if calls != [] {
      StoredIsNeverEvicted(cx, cfg, st, calls[0], a);
      CallIsOrdered(cx, cfg, st, calls[0]);
      hide Ordered, Apply, Touches, Unlisted;
      StoredStaysCached(cx, cfg, Apply(cx, cfg, st, calls[0]), calls[1..], a);
    }
  }
}
