/** How long the storage cache keeps a token, and how large it gets. */
module CacheTheorems {
  import opened Common
  import opened StorageCache

  type Tokens = map<Key, Entry<Token>>

  datatype Op =
    | PutOp(key: Key, token: Token, ttl: Option<nat>, verified: bool, victim: Key)
    | GetOp(key: Key)
    | SweepOp

  datatype Call = Call(op: Op, time: nat)

  function Step(cx: Codec<Token>, cfg: Config, m: Tokens, c: Call): Tokens {
    match c.op
    case PutOp(key, token, ttl, verified, victim) => Put(cx, cfg, m, key, token, ttl, verified, c.time, victim).0
    case GetOp(key) => Get(cx, m, key, c.time).0
    case SweepOp => Unexpired(m, c.time)
  }

  function Run(cx: Codec<Token>, cfg: Config, m: Tokens, calls: seq<Call>): Tokens
    decreases |calls|
  {
    if calls == [] then m else Run(cx, cfg, Step(cx, cfg, m, calls[0]), calls[1..])
  }

  // ---------------------------------------------------------------- size

  function Limit(cfg: Config): nat {
    if cfg.maxEntries > 0 then cfg.maxEntries else 1
  }

  /** Each eviction takes an entry of the map; clock readings and expiry are free. */
  predicate Evicts(cx: Codec<Token>, cfg: Config, m: Tokens, calls: seq<Call>)
    decreases |calls|
  {
    calls == [] ||
    (&& (calls[0].op.PutOp? && m != map[] ==> calls[0].op.victim in m)
     && Evicts(cx, cfg, Step(cx, cfg, m, calls[0]), calls[1..]))
  }

  lemma {:induction false} PutKeepsSize(cx: Codec<Token>, cfg: Config, m: Tokens, op: Op, now: nat)
    requires op.PutOp? && |m| <= Limit(cfg)
    requires m != map[] ==> op.victim in m
    ensures |Put(cx, cfg, m, op.key, op.token, op.ttl, op.verified, now, op.victim).0| <= Limit(cfg)
  {
    SizeAfterDrop(m, op.victim);
    var room := MakeRoom(cfg, m, op.victim);
    assert |room| < Limit(cfg);
    hide MakeRoom;
    var e := NewEntry(cx, cfg, op.token, op.ttl, op.verified, now);
    if e.Some? {
      SizeAfterPut(room, op.key, e.value);
    }
  }

  lemma {:induction false} GetKeepsSize(cx: Codec<Token>, m: Tokens, key: Key, now: nat)
    ensures |Get(cx, m, key, now).0| <= |m|
  {
    hide IsExpired, Intact;
    SizeAfterDrop(m, key);
    if key in m {
      SizeAfterPut(m, key, m[key].(lastAccessed := now));
    }
  }

  /** In every run of puts, gets and sweeps, at any times, the map never exceeds max(1, maxEntries) entries. */
  lemma {:induction false} CacheStaysBounded(cx: Codec<Token>, cfg: Config, m: Tokens, calls: seq<Call>)
    requires |m| <= Limit(cfg) && Evicts(cx, cfg, m, calls)
    ensures |Run(cx, cfg, m, calls)| <= Limit(cfg)
    decreases |calls|
  {
    if calls != [] {
      match calls[0].op {
        case PutOp(_, _, _, _, _) => PutKeepsSize(cx, cfg, m, calls[0].op, calls[0].time);
        case GetOp(key) => GetKeepsSize(cx, m, key, calls[0].time);
        case SweepOp => UnexpiredIsSmaller(m, calls[0].time);
      }
      hide Put, Get, Unexpired;
      CacheStaysBounded(cx, cfg, Step(cx, cfg, m, calls[0]), calls[1..]);
    }
  }

  // ---------------------------------------------------------------- survival

  /**
   A run with a strictly increasing clock in which each eviction picks a least recently accessed
   entry, and `x` has not expired when it is read or when expired entries are swept.
   */
  ghost predicate TimelyRun(cx: Codec<Token>, cfg: Config, m: Tokens, calls: seq<Call>, last: nat, x: Key)
    decreases |calls|
  {
    calls == [] ||
    (var c := calls[0];
     && c.time > last
     && (c.op.PutOp? && m != map[] ==> IsOldest(m, c.op.victim))
     && (c.op == GetOp(x) || c.op.SweepOp? ==> x in m ==> !IsExpired(m[x], c.time))
     && TimelyRun(cx, cfg, Step(cx, cfg, m, c), calls[1..], c.time, x))
  }

  /** Entries built by the cache itself pass their integrity check. */
  ghost predicate AllIntact(cx: Codec<Token>, m: Tokens) {
    forall k :: k in m ==> Intact(cx, m[k]) == Some(true)
  }

  ghost function Newer(m: Tokens, time: nat): set<Key> {
    set k | k in m && m[k].lastAccessed > time
  }

  /** `x` was accessed at `time`, alone at that instant, and at most `calls` keys were accessed since. */
  ghost predicate Kept(m: Tokens, x: Key, time: nat, calls: nat) {
    && x in m && m[x].lastAccessed >= time
    && (forall k :: k in m && k != x ==> m[k].lastAccessed != time)
    && |Newer(m, time)| <= calls
  }

  /** If `x` is a least recently accessed entry, all the others were accessed since. */
  lemma {:induction false} RestIsNewer(m: Tokens, x: Key, time: nat, calls: nat)
    requires Kept(m, x, time, calls) && IsOldest(m, x)
    ensures |m| - 1 <= |Newer(m, time)|
  {
    forall k | k in m && k != x ensures k in Newer(m, time) {
      assert m[x].lastAccessed <= m[k].lastAccessed;
    }
    SubsetIsSmaller(m.Keys - {x}, Newer(m, time));
    assert |m.Keys - {x}| == |m.Keys| - 1;
  }

  ghost predicate PartOf(part: Tokens, m: Tokens) {
    forall k :: k in part ==> k in m && part[k] == m[k]
  }

  lemma {:induction false} RoomKeeps(cfg: Config, m: Tokens, victim: Key, x: Key, time: nat, calls: nat)
    requires Kept(m, x, time, calls) && calls + 1 < cfg.maxEntries && IsOldest(m, victim)
    ensures x in MakeRoom(cfg, m, victim) && PartOf(MakeRoom(cfg, m, victim), m)
  {
    if victim == x {
      RestIsNewer(m, x, time, calls);
    }
    hide Newer, IsOldest;
  }

  /** Writing one freshly accessed entry into a part of the map that still has `x`. */
  lemma {:induction false} WriteKeeps(cx: Codec<Token>, m: Tokens, room: Tokens, key: Key, e: Entry<Token>, x: Key,
                                      time: nat, calls: nat)
    requires AllIntact(cx, m) && Kept(m, x, time, calls) && x in room && PartOf(room, m)
    requires e.lastAccessed > time && Intact(cx, e) == Some(true)
    ensures AllIntact(cx, room) && Kept(room, x, time, calls + 1)
    ensures AllIntact(cx, room[key := e]) && Kept(room[key := e], x, time, calls + 1)
  {
    assert Newer(room, time) <= Newer(m, time);
    SubsetIsSmaller(Newer(room, time), Newer(m, time));
    assert Newer(room[key := e], time) <= Newer(m, time) + {key};
    SubsetIsSmaller(Newer(room[key := e], time), Newer(m, time) + {key});
  }

  lemma {:induction false} PutKeeps(cx: Codec<Token>, cfg: Config, m: Tokens, c: Call, x: Key, time: nat, calls: nat)
    requires AllIntact(cx, m) && Kept(m, x, time, calls) && calls + 1 < cfg.maxEntries
    requires c.time > time && c.op.PutOp? && IsOldest(m, c.op.victim)
    ensures AllIntact(cx, Step(cx, cfg, m, c)) && Kept(Step(cx, cfg, m, c), x, time, calls + 1)
  {
    RoomKeeps(cfg, m, c.op.victim, x, time, calls);
    var room := MakeRoom(cfg, m, c.op.victim);
    var e := NewEntry(cx, cfg, c.op.token, c.op.ttl, c.op.verified, c.time);
    var written := if e.Some? then e.value else m[x].(lastAccessed := c.time);
    WriteKeeps(cx, m, room, c.op.key, written, x, time, calls);
    hide MakeRoom, IsOldest, AllIntact, Kept, NewEntry;
  }

  lemma {:induction false} GetKeeps(cx: Codec<Token>, cfg: Config, m: Tokens, c: Call, x: Key, time: nat, calls: nat)
    requires AllIntact(cx, m) && Kept(m, x, time, calls)
    requires c.time > time && c.op.GetOp? && (c.op.key == x ==> !IsExpired(m[x], c.time))
    ensures AllIntact(cx, Step(cx, cfg, m, c)) && Kept(Step(cx, cfg, m, c), x, time, calls + 1)
  {
    hide IsExpired;
    var key := c.op.key;
    if key !in m {
      WriteKeeps(cx, m, m, key, m[x].(lastAccessed := c.time), x, time, calls);
    } else if IsExpired(m[key], c.time) {
      WriteKeeps(cx, m, m - {key}, key, m[x].(lastAccessed := c.time), x, time, calls);
    } else {
      WriteKeeps(cx, m, m, key, m[key].(lastAccessed := c.time), x, time, calls);
      assert Step(cx, cfg, m, c) == m[key := m[key].(lastAccessed := c.time)];
    }
    hide AllIntact, Kept, Intact;
  }

  lemma {:induction false} SweepKeeps(cx: Codec<Token>, m: Tokens, now: nat, x: Key, time: nat, calls: nat)
    requires AllIntact(cx, m) && Kept(m, x, time, calls) && !IsExpired(m[x], now)
    ensures AllIntact(cx, Unexpired(m, now)) && Kept(Unexpired(m, now), x, time, calls + 1)
  {
    hide IsExpired;
    SubsetIsSmaller(Newer(Unexpired(m, now), time), Newer(m, time));
  }

  lemma {:induction false} RunKeeps(cx: Codec<Token>, cfg: Config, m: Tokens, calls: seq<Call>, last: nat, x: Key,
                                    time: nat, done: nat)
    requires AllIntact(cx, m) && Kept(m, x, time, done) && done + |calls| < cfg.maxEntries
    requires time <= last && TimelyRun(cx, cfg, m, calls, last, x)
    ensures x in Run(cx, cfg, m, calls)
    decreases |calls|
  {
    if calls != [] {
      match calls[0].op {
        case PutOp(_, _, _, _, _) => PutKeeps(cx, cfg, m, calls[0], x, time, done);
        case GetOp(_) => GetKeeps(cx, cfg, m, calls[0], x, time, done);
        case SweepOp => SweepKeeps(cx, m, calls[0].time, x, time, done);
      }
      hide Put, Get, Unexpired;
      RunKeeps(cx, cfg, Step(cx, cfg, m, calls[0]), calls[1..], calls[0].time, x, time, done + 1);
    }
  }

  /** A token just read stays cached through any next maxEntries - 1 calls. */
  lemma {:induction false} JustReadSurvives(cx: Codec<Token>, cfg: Config, m: Tokens, x: Key, now: nat,
                                            calls: seq<Call>)
    requires AllIntact(cx, m) && x in m && !IsExpired(m[x], now)
    requires forall k :: k in m ==> m[k].lastAccessed < now
    requires |calls| < cfg.maxEntries && TimelyRun(cx, cfg, Get(cx, m, x, now).0, calls, now, x)
    ensures Get(cx, m, x, now).1 == Ok(Some(m[x].data))
    ensures x in Run(cx, cfg, Get(cx, m, x, now).0, calls)
  {
    var read := Get(cx, m, x, now).0;
    assert read == m[x := m[x].(lastAccessed := now)];
    assert Newer(read, now) == {};
    assert AllIntact(cx, read);
    hide Get;
    RunKeeps(cx, cfg, read, calls, now, x, now, 0);
  }

  /** One call more can evict it: filling up with fresh tokens always does, at exactly maxEntries puts. */
  lemma {:induction false} FreshPutsEvict(cx: Codec<Token>, cfg: Config, m: Tokens, x: Key, calls: seq<Call>, last: nat)
    requires calls != [] && |m| + |calls| == cfg.maxEntries + 1 && TimelyRun(cx, cfg, m, calls, last, x)
    requires x in m && m[x].lastAccessed <= last && forall k :: k in m && k != x ==>
      m[k].lastAccessed > m[x].lastAccessed
    requires forall i :: 0 <= i < |calls| ==> calls[i].op.PutOp? && calls[i].op.key !in m
    requires forall i :: 0 <= i < |calls| ==> cx.encode(calls[i].op.token).Some?
    requires forall i, j :: 0 <= i < j < |calls| ==> calls[i].op.key != calls[j].op.key
    ensures x !in Run(cx, cfg, m, calls)
    decreases |calls|
  {
    var c := calls[0];
    var next := Step(cx, cfg, m, c);
    var e := NewEntry(cx, cfg, c.op.token, c.op.ttl, c.op.verified, c.time).value;
    assert m != map[] && c.op.key != x;
    if |calls| == 1 {
      assert c.op.victim == x;
      assert next == (m - {x})[c.op.key := e];
      assert calls[1..] == [];
    } else {
      assert next == m[c.op.key := e];
      SizeAfterPut(m, c.op.key, e);
      hide Step;
      assert forall i :: 0 <= i < |calls| - 1 ==> calls[1..][i] == calls[i + 1];
      FreshPutsEvict(cx, cfg, next, x, calls[1..], c.time);
    }
  }

  // ---------------------------------------------------------------- life

  /** The key holds this token with this birth and lifetime, or nothing. */
  ghost predicate SameLife(m: Tokens, key: Key, e: Entry<Token>) {
    key in m ==> m[key] == e.(lastAccessed := m[key].lastAccessed)
  }

  /** No call of the run writes the key; other tokens may be put and evict it. */
  ghost predicate LeavesAlone(calls: seq<Call>, key: Key) {
    forall i :: 0 <= i < |calls| ==> calls[i].op.PutOp? ==> calls[i].op.key != key
  }

  lemma {:induction false} StepKeepsLife(cx: Codec<Token>, cfg: Config, m: Tokens, c: Call, key: Key, e: Entry<Token>)
    requires SameLife(m, key, e) && (c.op.PutOp? ==> c.op.key != key)
    ensures SameLife(Step(cx, cfg, m, c), key, e)
  {
    hide IsExpired, Intact, NewEntry;
  }

  lemma {:induction false} RunKeepsLife(cx: Codec<Token>, cfg: Config, m: Tokens, calls: seq<Call>, key: Key,
                                        e: Entry<Token>)
    requires SameLife(m, key, e) && LeavesAlone(calls, key)
    ensures SameLife(Run(cx, cfg, m, calls), key, e)
    decreases |calls|
  {
    if calls != [] {
      StepKeepsLife(cx, cfg, m, calls[0], key, e);
      assert forall i :: 0 <= i < |calls| - 1 ==> calls[1..][i] == calls[i + 1];
      hide Step;
      RunKeepsLife(cx, cfg, Step(cx, cfg, m, calls[0]), calls[1..], key, e);
    }
  }

  /** Only reads and sweeps, all while the token is alive. */
  ghost predicate ReadsBy(calls: seq<Call>, end: nat) {
    forall i :: 0 <= i < |calls| ==> !calls[i].op.PutOp? && calls[i].time <= end
  }

  lemma {:induction false} ReadsKeepToken(cx: Codec<Token>, cfg: Config, m: Tokens, calls: seq<Call>, key: Key,
                                          e: Entry<Token>)
    requires key in m && SameLife(m, key, e) && Intact(cx, e) == Some(true)
    requires e.ttl == 0 || ReadsBy(calls, e.createdAt + e.ttl)
    requires forall i :: 0 <= i < |calls| ==> !calls[i].op.PutOp?
    ensures key in Run(cx, cfg, m, calls)
    decreases |calls|
  {
    if calls != [] {
      StepKeepsLife(cx, cfg, m, calls[0], key, e);
      assert forall i :: 0 <= i < |calls| - 1 ==> calls[1..][i] == calls[i + 1];
      assert key in Step(cx, cfg, m, calls[0]);
      hide Step;
      ReadsKeepToken(cx, cfg, Step(cx, cfg, m, calls[0]), calls[1..], key, e);
    }
  }

  /** What a successful put leaves under its key: the token, born now, with the given or the default lifetime. */
  lemma {:induction false} PutIsBornNow(cx: Codec<Token>, cfg: Config, m: Tokens, op: Op, now: nat)
    requires op.PutOp? && cx.encode(op.token).Some?
    ensures var out := Put(cx, cfg, m, op.key, op.token, op.ttl, op.verified, now, op.victim);
            && out.1 == Ok(()) && op.key in out.0
            && var e := out.0[op.key];
               && e.data == op.token && e.createdAt == now && e.lastAccessed == now && e.verified == op.verified
               && e.ttl == (match op.ttl case Some(d) => d case None => cfg.defaultTtl)
               && Intact(cx, e) == Some(true)
  {
  }

  /**
   A token put at `now` with lifetime d > 0 is never returned after now + d, whatever is read, swept
   or put under other keys between: reading does not extend a life.
   */
  lemma {:induction false} NeverAfterItsLife(cx: Codec<Token>, cfg: Config, m: Tokens, op: Op, now: nat,
                                             calls: seq<Call>,
                                             d: nat, t: nat)
    requires op.PutOp? && cx.encode(op.token).Some? && LeavesAlone(calls, op.key)
    requires d == (if op.ttl.Some? then op.ttl.value else cfg.defaultTtl) && d > 0 && t > now + d
    ensures var put := Put(cx, cfg, m, op.key, op.token, op.ttl, op.verified, now, op.victim).0;
            Get(cx, Run(cx, cfg, put, calls), op.key, t).1 == Ok(None)
  {
    PutIsBornNow(cx, cfg, m, op, now);
    hide Put, Intact;
    var put := Put(cx, cfg, m, op.key, op.token, op.ttl, op.verified, now, op.victim).0;
    RunKeepsLife(cx, cfg, put, calls, op.key, put[op.key]);
    hide Run;
  }

  /** Up to that time, and for ever with lifetime 0, reads and sweeps between do not matter: it is returned. */
  lemma {:induction false} ReturnedDuringItsLife(cx: Codec<Token>, cfg: Config, m: Tokens, op: Op, now: nat,
                                                 calls: seq<Call>, d: nat, t: nat)
    requires op.PutOp? && cx.encode(op.token).Some? && forall i :: 0 <= i < |calls| ==> !calls[i].op.PutOp?
    requires d == (if op.ttl.Some? then op.ttl.value else cfg.defaultTtl)
    requires d == 0 || (t <= now + d && ReadsBy(calls, now + d))
    ensures var put := Put(cx, cfg, m, op.key, op.token, op.ttl, op.verified, now, op.victim).0;
            Get(cx, Run(cx, cfg, put, calls), op.key, t).1 == Ok(Some(op.token))
  {
    PutIsBornNow(cx, cfg, m, op, now);
    hide Put;
    var put := Put(cx, cfg, m, op.key, op.token, op.ttl, op.verified, now, op.victim).0;
    RunKeepsLife(cx, cfg, put, calls, op.key, put[op.key]);
    ReadsKeepToken(cx, cfg, put, calls, op.key, put[op.key]);
    hide Run;
  }

  /** A token whose bytes no longer have the recorded digest is refused and dropped. */
  lemma {:induction false} CorruptIsRefused(cx: Codec<Token>, m: Tokens, key: Key, t: nat)
    requires key in m && !IsExpired(m[key], t)
    requires cx.encode(m[key].data).Some? && cx.digest(cx.encode(m[key].data).value) != m[key].hash
    ensures Get(cx, m, key, t) == (m - {key}, Err(Integrity))
  {
  }
}
