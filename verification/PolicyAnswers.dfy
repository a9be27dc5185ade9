/** What the policy store answers: lookups, verification, deletion and expiry (dsm/src/cpta/policy_store.rs). */
module PolicyAnswers {
  import opened Common
  import opened PolicyStore
  import opened PolicyTheorems

  function After(cx: Codec, cfg: Config, files: map<Anchor, string>, calls: seq<Call>): State {
    Run(cx, cfg, EMPTY.(files := files), calls)
  }

  // ---------------------------------------------------------------- the anchor of an answer

  lemma {:induction false} GetHasItsAnchor(cx: Codec, cfg: Config, st: State, a: Anchor, t: Time)
    requires Addressed(cx, st)
    ensures var r := GetPolicy(cx, cfg, st, a, t).1;
            r.Ok? ==> cx.anchorOf(r.value.file) == Some(a) && r.value.anchor == a
  {
    hide RemoveFirst;
  }

  /** After any run, over any disk contents: whatever data came along, a verified policy has the requested anchor. */
  lemma {:induction false} VerifiedPolicyHasItsAnchor(cx: Codec, cfg: Config, calls: seq<Call>,
                                                      files: map<Anchor, string>, a: Anchor, data: Option<string>,
                                                      t: Time)
    ensures var r := VerifyAndGet(cx, cfg, After(cx, cfg, files, calls), a, data, t).1;
            r.Ok? ==> cx.anchorOf(r.value.file) == Some(a) && r.value.anchor == a
  {
    var st := After(cx, cfg, files, calls);
    RunKeepsAddressed(cx, cfg, EMPTY.(files := files), calls);
    hide Run, Addressed, GetPolicy, AllZero, StorePolicy;
    GetHasItsAnchor(cx, cfg, st, a, t);
    if data.Some? && cx.fromJson(data.value).Some? {
      var f := cx.fromJson(data.value).value;
      StoreKeepsAddressed(cx, st, f, t);
      GetHasItsAnchor(cx, cfg, StorePolicy(cx, st, f, t).0, a, t);
    }
  }

  /** After any run a cached policy that is handed out has the requested anchor. */
  lemma {:induction false} PeekedPolicyHasItsAnchor(cx: Codec, cfg: Config, calls: seq<Call>,
                                                    files: map<Anchor, string>, a: Anchor, now: nat)
    ensures var r := GetFromCache(cfg, After(cx, cfg, files, calls), a, now).1;
            r.Some? ==> cx.anchorOf(r.value.file) == Some(a) && r.value.anchor == a
  {
    RunKeepsAddressed(cx, cfg, EMPTY.(files := files), calls);
    hide Run, Forget, Touch;
  }

  // ---------------------------------------------------------------- the contents of an answer

  /** The answer is what a read of these files without a cache gives. */
  ghost predicate AnswersAsRead(cx: Codec, files: map<Anchor, string>, a: Anchor, r: Result<TokenPolicy, Error>) {
    match r
    case Ok(p) => ReadFile(cx, files, a) == Ok(p.file)
    case Err(e) => ReadFile(cx, files, a) == Err(e)
  }

  lemma {:induction false} GetAnswersAsRead(cx: Codec, cfg: Config, st: State, a: Anchor, t: Time)
    requires Backed(cx, st)
    ensures AnswersAsRead(cx, st.files, a, GetPolicy(cx, cfg, st, a, t).1)
  {
    hide RemoveFirst, ReadFile, AddToCache;
  }

  predicate Storable(cx: Codec, f: PolicyFile) {
    cx.anchorOf(f).Some? && cx.toJson(f).Some?
  }

  /** The file that came along parses, can be stored, and its anchor is this one. */
  ghost predicate Brings(cx: Codec, data: Option<string>, b: Anchor, json: string) {
    && data.Some? && cx.fromJson(data.value).Some?
    && cx.anchorOf(cx.fromJson(data.value).value) == Some(b)
    && cx.toJson(cx.fromJson(data.value).value) == Some(json)
  }

  /**
   The whole answer of `verify_and_get_policy` after a run in which files round-trip. Data for the
   zero anchor is refused, data that does not parse or cannot be stored is an error, and otherwise
   the answer is a plain read of the requested anchor after the file was written under its own.
   */
  lemma {:induction false} VerifyAnswersExactly(cx: Codec, cfg: Config, calls: seq<Call>, files: map<Anchor, string>,
                                                a: Anchor, data: Option<string>, t: Time, b: Anchor, json: string)
    requires forall i :: 0 <= i < |calls| ==> Transparent(cx, calls[i].op)
    requires Transparent(cx, Verify(a, data))
    ensures var st := After(cx, cfg, files, calls);
            var r := VerifyAndGet(cx, cfg, st, a, data, t).1;
            && (data.None? ==> AnswersAsRead(cx, st.files, a, r))
            && (data.Some? && (forall i :: 0 <= i < |a.bytes| ==> a.bytes[i] == 0) ==> r == Err(EmptyAnchor))
            && (data.Some? && !AllZero(a) && cx.fromJson(data.value).None? ==> r == Err(Undecodable))
            && (data.Some? && !AllZero(a) && cx.fromJson(data.value).Some? ==>
                  !Storable(cx, cx.fromJson(data.value).value) ==> r == Err(Unserializable))
            && (!AllZero(a) && Brings(cx, data, b, json) ==> AnswersAsRead(cx, st.files[b := json], a, r))
  {
    var st := After(cx, cfg, files, calls);
    RunKeepsBacked(cx, cfg, EMPTY.(files := files), calls);
    hide Run, Backed, GetPolicy, AnswersAsRead, RoundTrips;
    GetAnswersAsRead(cx, cfg, st, a, t);
    if Brings(cx, data, b, json) {
      var f := cx.fromJson(data.value).value;
      StoreKeepsBacked(cx, st, f, t);
      GetAnswersAsRead(cx, cfg, StorePolicy(cx, st, f, t).0, a, t);
    }
  }

  /** A cached answer is what the file holds, and there is one exactly while the entry is alive. */
  lemma {:induction false} PeekAnswersExactly(cx: Codec, cfg: Config, calls: seq<Call>, files: map<Anchor, string>,
                                              a: Anchor, now: nat)
    requires forall i :: 0 <= i < |calls| ==> Transparent(cx, calls[i].op)
    ensures var st := After(cx, cfg, files, calls);
            var r := GetFromCache(cfg, st, a, now).1;
            && (r.Some? <==> a in st.cache && now <= st.cache[a].added + cfg.ttl)
            && (r.Some? ==> ReadFile(cx, st.files, a) == Ok(r.value.file))
  {
    RunKeepsBacked(cx, cfg, EMPTY.(files := files), calls);
    hide Run, ReadFile, Forget, Touch;
  }

  // ---------------------------------------------------------------- deletion

  /** After a delete the policy is not found, by any lookup, and every other policy is as before. */
  lemma {:induction false} DeletedIsNotFound(cx: Codec, cfg: Config, st: State, a: Anchor, t: Time)
    ensures var out := DeletePolicy(st, a);
            && GetPolicy(cx, cfg, out, a, t).1 == Err(NotFound)
            && VerifyAndGet(cx, cfg, out, a, None, t).1 == Err(NotFound)
            && GetFromCache(cfg, out, a, t.now).1 == None
            && forall b :: b != a ==>
                 && ReadFile(cx, out.files, b) == ReadFile(cx, st.files, b)
                 && (b in out.cache <==> b in st.cache) && (b in st.cache ==> out.cache[b] == st.cache[b])
  {
    hide RemoveFirst;
  }

  // ---------------------------------------------------------------- expiry

  lemma {:induction false} PeekKeepsLife(cfg: Config, st: State, b: Anchor, now: nat, a: Anchor)
    ensures var out := GetFromCache(cfg, st, b, now).0;
            && (a in out.cache ==> a in st.cache && out.cache[a].added == st.cache[a].added &&
                                   out.cache[a].policy == st.cache[a].policy)
            && (a in st.cache && now <= st.cache[a].added + cfg.ttl ==> a in out.cache)
  {
    hide RemoveFirst;
  }

  ghost predicate OnlyPeeks(calls: seq<Call>) {
    forall i :: 0 <= i < |calls| ==> calls[i].op.Peek?
  }

  lemma {:induction false} PeeksKeepLife(cx: Codec, cfg: Config, st: State, calls: seq<Call>, a: Anchor)
    requires OnlyPeeks(calls) && a in st.cache
    ensures var out := Run(cx, cfg, st, calls);
            && (a in out.cache ==> out.cache[a].added == st.cache[a].added && out.cache[a].policy == st.cache[a].policy)
            && ((forall i :: 0 <= i < |calls| ==> calls[i].time.now <= st.cache[a].added + cfg.ttl) ==> a in out.cache)
    decreases |calls|
  {
    if calls != [] {
      var next := Apply(cx, cfg, st, calls[0]);
      assert calls[0].op.Peek?;
      PeekKeepsLife(cfg, st, calls[0].op.anchor, calls[0].time.now, a);
      assert forall i :: 0 <= i < |calls| - 1 ==> calls[1..][i] == calls[i + 1];
      hide GetFromCache;
      if a in next.cache {
        PeeksKeepLife(cx, cfg, next, calls[1..], a);
      } else {
        GoneStaysGone(cx, cfg, next, calls[1..], a);
      }
    }
  }

  lemma {:induction false} GoneStaysGone(cx: Codec, cfg: Config, st: State, calls: seq<Call>, a: Anchor)
    requires OnlyPeeks(calls) && a !in st.cache
    ensures a !in Run(cx, cfg, st, calls).cache
    decreases |calls|
  {
    if calls != [] {
      assert calls[0].op.Peek?;
      PeekKeepsLife(cfg, st, calls[0].op.anchor, calls[0].time.now, a);
      assert forall i :: 0 <= i < |calls| - 1 ==> calls[1..][i] == calls[i + 1];
      hide GetFromCache;
      GoneStaysGone(cx, cfg, Apply(cx, cfg, st, calls[0]), calls[1..], a);
    }
  }

  /**
   Reading does not extend a life: a cached policy is handed out up to its time to live after it was
   added, and never later, whatever reads came between.
   */
  lemma {:induction false} ReadingDoesNotExtend(cx: Codec, cfg: Config, st: State, calls: seq<Call>, a: Anchor,
                                                now: nat)
    requires OnlyPeeks(calls) && a in st.cache
    ensures var end := st.cache[a].added + cfg.ttl;
            var r := GetFromCache(cfg, Run(cx, cfg, st, calls), a, now).1;
            && (now > end ==> r == None)
            && (now <= end && (forall i :: 0 <= i < |calls| ==> calls[i].time.now <= end) ==>
                  r == Some(st.cache[a].policy))
  {
    PeeksKeepLife(cx, cfg, st, calls, a);
    hide Run, Forget, Touch;
  }

  /** A policy that was not cached lives from the moment it was loaded or stored. */
  lemma {:induction false} LifeStartsNow(cx: Codec, cfg: Config, st: State, a: Anchor, f: PolicyFile, t: Time)
    ensures a !in st.cache && GetPolicy(cx, cfg, st, a, t).1.Ok? ==>
              var out := GetPolicy(cx, cfg, st, a, t).0;
              a in out.cache && out.cache[a].added == t.now && out.cache[a].lastAccess == t.now
    ensures StorePolicy(cx, st, f, t).1 == Ok(a) ==>
              var out := StorePolicy(cx, st, f, t).0;
              a in out.cache && out.cache[a].added == t.now && out.cache[a].lastAccess == t.now
  {
    hide RemoveFirst, ReadFile;
  }

  /** A stale entry is not answered from: `get_policy` reads the file again. */
  lemma {:induction false} StaleIsReread(cx: Codec, cfg: Config, st: State, a: Anchor, t: Time)
    requires a in st.cache && t.now > st.cache[a].added + cfg.ttl
    ensures AnswersAsRead(cx, st.files, a, GetPolicy(cx, cfg, st, a, t).1)
  {
    hide RemoveFirst, ReadFile, AddToCache;
  }
}
