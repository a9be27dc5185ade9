/**
 The key-value store behind the Ethereum bridge: states, a block index, a transaction index, a
 latest pointer and a cache (dsm_ethereum_bridge/src/state_management.rs).
 */
module BridgeIndex {
  import opened Common
  import opened Text

  type Hash32 = b: Bytes | |b| == 32 witness seq(32, _ => 0)

  datatype Anchor = Anchor(block: u64, tx: Hash32, root: Hash32)

  datatype DsmState = DsmState(data: Bytes, anchor: Option<Anchor>)

  datatype Error = Undecodable

  /** The Keccak digest and the binary codec, left uninterpreted. Stored bytes are written as strings. */
  datatype Codec = Codec(keccak: Digest, encode: DsmState -> string, decode: string -> Option<DsmState>)

  ghost predicate RoundTrips(cx: Codec) {
    forall s :: cx.decode(cx.encode(s)) == Some(s)
  }

  // ---------------------------------------------------------------- keys

  /** The bytes `generate_state_id` hashes: the data, then the anchor when there is one. */
  function IdBytes(s: DsmState): Bytes {
    match s.anchor
    case None => s.data
    case Some(a) => s.data + BigEndian(a.block, 8) + a.tx + a.root
  }

  function StateKey(cx: Codec, s: DsmState): string {
    "dsm_state:" + Hex(cx.keccak(IdBytes(s)))
  }

  function BlockKey(block: u64): string {
    "eth_anchor:block:" + Decimal(block)
  }

  function TxKey(tx: Hash32): string {
    "eth_anchor:tx:" + Hex(tx)
  }

  const LATEST_KEY := "latest_state"

  lemma {:induction false} KeysAreDisjoint(cx: Codec, s: DsmState, block: u64, tx: Hash32)
    ensures StateKey(cx, s) != BlockKey(block) && StateKey(cx, s) != TxKey(tx) && StateKey(cx, s) != LATEST_KEY
    ensures BlockKey(block) != TxKey(tx) && BlockKey(block) != LATEST_KEY && TxKey(tx) != LATEST_KEY
  {
    assert StateKey(cx, s)[0] == 'd' && BlockKey(block)[0] == 'e' && TxKey(tx)[0] == 'e' && LATEST_KEY[0] == 'l';
    assert BlockKey(block)[11] == 'b' && TxKey(tx)[11] == 't';
  }

  lemma {:induction false} BlockKeyInjective(a: u64, b: u64)
    requires BlockKey(a) == BlockKey(b)
    ensures a == b
  {
    assert BlockKey(a)[17..] == Decimal(a) && BlockKey(b)[17..] == Decimal(b);
    DecimalInjective(a, b);
  }

  lemma {:induction false} TxKeyInjective(a: Hash32, b: Hash32)
    requires TxKey(a) == TxKey(b)
    ensures a == b
  {
    assert TxKey(a)[14..] == Hex(a) && TxKey(b)[14..] == Hex(b);
    HexInjective(a, b);
  }

  lemma {:induction false} StateKeyHasNoComma(cx: Codec, s: DsmState)
    ensures ',' !in StateKey(cx, s)
  {
    var hex := Hex(cx.keccak(IdBytes(s)));
    assert ',' !in hex;
    assert ',' !in "dsm_state:";
  }

  // ---------------------------------------------------------------- the list a run of adds stands for

  predicate IsAt(s: DsmState, block: u64) {
    s.anchor.Some? && s.anchor.value.block == block
  }

  predicate HasTx(s: DsmState, tx: Hash32) {
    s.anchor.Some? && s.anchor.value.tx == tx
  }

  /** The distinct states added with a block, in first-added order. */
  function StatesAt(added: seq<DsmState>, block: u64): seq<DsmState> {
    if added == [] then []
    else
      var before, s := StatesAt(added[..|added| - 1], block), added[|added| - 1];
      if IsAt(s, block) && s !in before then before + [s] else before
  }

  /** The most recently added state with a transaction. */
  function LastWithTx(added: seq<DsmState>, tx: Hash32): (r: Option<DsmState>)
    ensures r.Some? ==> r.value in added && HasTx(r.value, tx)
    ensures r.None? ==> forall s :: s in added ==> !HasTx(s, tx)
  {
    if added == [] then None
    else if HasTx(added[|added| - 1], tx) then Some(added[|added| - 1])
    else LastWithTx(added[..|added| - 1], tx)
  }

  /** The most recently added state with a key: what the store holds under that key. */
  function LastWithKey(cx: Codec, added: seq<DsmState>, key: string): (r: Option<DsmState>)
    ensures r.Some? ==> r.value in added && StateKey(cx, r.value) == key
    ensures r.None? ==> forall s :: s in added ==> StateKey(cx, s) != key
  {
    if added == [] then None
    else if StateKey(cx, added[|added| - 1]) == key then Some(added[|added| - 1])
    else LastWithKey(cx, added[..|added| - 1], key)
  }

  /** The distinct keys of the states added with a block, in first-added order. */
  function KeysAt(cx: Codec, added: seq<DsmState>, block: u64): (r: seq<string>)
    ensures forall k :: k in r <==> exists s :: s in added && IsAt(s, block) && StateKey(cx, s) == k
  {
    if added == [] then []
    else
      var before, s := KeysAt(cx, added[..|added| - 1], block), added[|added| - 1];
      assert added == added[..|added| - 1] + [s];
      if IsAt(s, block) && StateKey(cx, s) !in before then before + [StateKey(cx, s)] else before
  }

  /** A transaction's state is the most recent one: nothing added later has that transaction. */
  lemma {:induction false} LastWithTxAt(added: seq<DsmState>, tx: Hash32) returns (m: nat)
    requires LastWithTx(added, tx).Some?
    ensures m < |added| && LastWithTx(added, tx) == Some(added[m]) && HasTx(added[m], tx)
    ensures forall j :: m < j < |added| ==> !HasTx(added[j], tx)
  {
    var n := |added| - 1;
    if HasTx(added[n], tx) {
      m := n;
    } else {
      m := LastWithTxAt(added[..n], tx);
    }
  }

  /** The position at which a state was added first. */
  function FirstAdded(added: seq<DsmState>, s: DsmState): (i: nat)
    requires s in added
    ensures i < |added| && added[i] == s && forall j :: 0 <= j < i ==> added[j] != s
  {
    if added[0] == s then 0 else 1 + FirstAdded(added[1..], s)
  }

  lemma {:induction false} FirstAddedInPrefix(added: seq<DsmState>, n: nat, s: DsmState)
    requires n <= |added| && s in added[..n]
    ensures s in added && FirstAdded(added, s) == FirstAdded(added[..n], s)
  {
    var i := FirstAdded(added[..n], s);
    assert added[i] == added[..n][i];
    assert forall j :: 0 <= j < i ==> added[j] == added[..n][j];
  }

  /** The states of a block come in the order in which they were added first. */
  lemma {:induction false} StatesAtInFirstAddedOrder(added: seq<DsmState>, block: u64, i: nat, j: nat)
    requires i < j < |StatesAt(added, block)|
    ensures var r := StatesAt(added, block);
            r[i] in added && r[j] in added && FirstAdded(added, r[i]) < FirstAdded(added, r[j])
  {
    var n := |added| - 1;
    var before := StatesAt(added[..n], block);
    var r := StatesAt(added, block);
    StatesAtAreDistinct(added, block);
    StatesAtAreDistinct(added[..n], block);
    assert r[i] == before[i] && before[i] in before;
    FirstAddedInPrefix(added, n, r[i]);
    if j < |before| {
      assert before[j] in before;
      FirstAddedInPrefix(added, n, r[j]);
      StatesAtInFirstAddedOrder(added[..n], block, i, j);
    } else {
      assert r[j] == added[n];
      assert forall k :: 0 <= k < n ==> added[k] == added[..n][k] && added[k] in added[..n];
    }
  }

  // ---------------------------------------------------------------- operations on the store

  type Store = map<string, string>
  type Cache = map<string, DsmState>

  /** The new block-index entry for a state key. */
  function Indexed(store: Store, block: u64, key: string): seq<string> {
    if BlockKey(block) in store then
      var ids := Split(store[BlockKey(block)]);
      if key in ids then ids else ids + [key]
    else [key]
  }

  function IndexAnchor(store: Store, key: string, a: Anchor): Store {
    var ids := Indexed(store, a.block, key);
    store[BlockKey(a.block) := Join(ids)][TxKey(a.tx) := key]
  }

  function Stored(cx: Codec, store: Store, s: DsmState): Store {
    var key := StateKey(cx, s);
    var written := store[key := cx.encode(s)][LATEST_KEY := key];
    match s.anchor
    case None => written
    case Some(a) => IndexAnchor(written, key, a)
  }

  /** The store after a run of adds, described entry by entry. */
  ghost predicate Represents(cx: Codec, store: Store, added: seq<DsmState>) {
    && (forall s :: s in added ==>
          && StateKey(cx, s) in store
          && store[StateKey(cx, s)] == cx.encode(LastWithKey(cx, added, StateKey(cx, s)).value))
    && (added == [] ==> LATEST_KEY !in store)
    && (added != [] ==> LATEST_KEY in store && store[LATEST_KEY] == StateKey(cx, added[|added| - 1]))
    && (forall b: u64 ::
          if KeysAt(cx, added, b) == [] then BlockKey(b) !in store
          else BlockKey(b) in store && store[BlockKey(b)] == Join(KeysAt(cx, added, b)))
    && (forall t: Hash32 ::
          if LastWithTx(added, t).None? then TxKey(t) !in store
          else TxKey(t) in store && store[TxKey(t)] == StateKey(cx, LastWithTx(added, t).value))
  }

  /** Every cached state is the one the store holds under that state's own key. */
  ghost predicate CacheAgrees(cx: Codec, store: Store, cache: Cache) {
    forall id :: id in cache ==> id == StateKey(cx, cache[id]) && id in store && store[id] == cx.encode(cache[id])
  }

  lemma {:induction false} AddingRepresents(cx: Codec, store: Store, added: seq<DsmState>, s: DsmState)
    requires Represents(cx, store, added)
    ensures Represents(cx, Stored(cx, store, s), added + [s])
  {
    var now := added + [s];
    assert now[..|now| - 1] == added;
    AddingStoresState(cx, store, added, s);
    forall b: u64
      ensures if KeysAt(cx, now, b) == [] then BlockKey(b) !in Stored(cx, store, s)
              else BlockKey(b) in Stored(cx, store, s) && Stored(cx, store, s)[BlockKey(b)] == Join(KeysAt(cx, now, b))
    {
      AddingIndexesBlock(cx, store, added, s, b);
    }
    forall t: Hash32
      ensures if LastWithTx(now, t).None? then TxKey(t) !in Stored(cx, store, s)
              else && TxKey(t) in Stored(cx, store, s)
                   && Stored(cx, store, s)[TxKey(t)] == StateKey(cx, LastWithTx(now, t).value)
    {
      AddingIndexesTx(cx, store, added, s, t);
    }
  }

  /** What adding `s` leaves under the key of a state `u`. */
  lemma {:induction false} StateEntryAfter(cx: Codec, store: Store, s: DsmState, u: DsmState)
    ensures var key, after := StateKey(cx, u), Stored(cx, store, s);
            if key == StateKey(cx, s) then key in after && after[key] == cx.encode(s)
            else (key in after <==> key in store) && (key in store ==> after[key] == store[key])
    ensures LATEST_KEY in Stored(cx, store, s) && Stored(cx, store, s)[LATEST_KEY] == StateKey(cx, s)
  {
    match s.anchor
    case None =>
      KeysAreDisjoint(cx, s, 0, seq(32, _ => 0));
      KeysAreDisjoint(cx, u, 0, seq(32, _ => 0));
    case Some(a) =>
      KeysAreDisjoint(cx, s, a.block, a.tx);
      KeysAreDisjoint(cx, u, a.block, a.tx);
      hide StateKey, BlockKey, TxKey, Join, Indexed;
  }

  lemma {:induction false} AddingStoresState(cx: Codec, store: Store, added: seq<DsmState>, s: DsmState)
    requires Represents(cx, store, added)
    ensures var now, after := added + [s], Stored(cx, store, s);
            && LATEST_KEY in after && after[LATEST_KEY] == StateKey(cx, s)
            && forall u :: u in now ==>
                 && StateKey(cx, u) in after
                 && after[StateKey(cx, u)] == cx.encode(LastWithKey(cx, now, StateKey(cx, u)).value)
  {
    var now, after := added + [s], Stored(cx, store, s);
    assert now[..|now| - 1] == added;
    StateEntryAfter(cx, store, s, s);
    hide StateKey, BlockKey, TxKey, Stored, KeysAt, LastWithTx;
    forall u | u in now
      ensures && StateKey(cx, u) in after
              && after[StateKey(cx, u)] == cx.encode(LastWithKey(cx, now, StateKey(cx, u)).value)
    {
      StateEntryAfter(cx, store, s, u);
    }
  }

  /** What adding `s` leaves in the index of a block `b`. */
  lemma {:induction false} BlockEntryAfter(cx: Codec, store: Store, s: DsmState, b: u64)
    ensures var key, after := BlockKey(b), Stored(cx, store, s);
            if IsAt(s, b) then key in after && after[key] == Join(Indexed(store, b, StateKey(cx, s)))
            else (key in after <==> key in store) && (key in store ==> after[key] == store[key])
  {
    KeysAreDisjoint(cx, s, b, if s.anchor.Some? then s.anchor.value.tx else seq(32, _ => 0));
    if s.anchor.Some? && BlockKey(b) == BlockKey(s.anchor.value.block) {
      BlockKeyInjective(b, s.anchor.value.block);
    }
    hide StateKey, BlockKey, TxKey, Join, Split;
  }

  /** The block index reads back as the list of keys it was joined from. */
  lemma {:induction false} IndexSplits(cx: Codec, store: Store, added: seq<DsmState>, block: u64)
    requires Represents(cx, store, added) && BlockKey(block) in store
    ensures Split(store[BlockKey(block)]) == KeysAt(cx, added, block)
  {
    var keys := KeysAt(cx, added, block);
    forall k | k in keys ensures ',' !in k {
      var u :| u in added && IsAt(u, block) && StateKey(cx, u) == k;
      StateKeyHasNoComma(cx, u);
    }
    SplitJoin(keys);
  }

  lemma {:induction false} AddingIndexesBlock(cx: Codec, store: Store, added: seq<DsmState>, s: DsmState, b: u64)
    requires Represents(cx, store, added)
    ensures var now, after := added + [s], Stored(cx, store, s);
            if KeysAt(cx, now, b) == [] then BlockKey(b) !in after
            else BlockKey(b) in after && after[BlockKey(b)] == Join(KeysAt(cx, now, b))
  {
    var now := added + [s];
    assert now[..|now| - 1] == added;
    BlockEntryAfter(cx, store, s, b);
    if KeysAt(cx, added, b) != [] {
      IndexSplits(cx, store, added, b);
    }
    hide StateKey, BlockKey, TxKey, Join, Split, Stored, LastWithTx, LastWithKey;
  }

  lemma {:induction false} AddingIndexesTx(cx: Codec, store: Store, added: seq<DsmState>, s: DsmState, t: Hash32)
    requires Represents(cx, store, added)
    ensures var now, after := added + [s], Stored(cx, store, s);
            if LastWithTx(now, t).None? then TxKey(t) !in after
            else TxKey(t) in after && after[TxKey(t)] == StateKey(cx, LastWithTx(now, t).value)
  {
    var now := added + [s];
    assert now[..|now| - 1] == added;
    KeysAreDisjoint(cx, s, if s.anchor.Some? then s.anchor.value.block else 0, t);
    if s.anchor.Some? && TxKey(t) == TxKey(s.anchor.value.tx) {
      TxKeyInjective(t, s.anchor.value.tx);
    }
    hide StateKey, BlockKey, TxKey, Join, Split;
  }

  // ---------------------------------------------------------------- the answers

  /** What `get_state_by_id` answers from the store alone. */
  function ById(cx: Codec, store: Store, id: string): Result<Option<DsmState>, Error> {
    if id !in store then Ok(None)
    else
      match cx.decode(store[id])
      case None => Err(Undecodable)
      case Some(s) => Ok(Some(s))
  }

  /** With a faithful cache the cached answer is the stored answer, so dropping entries changes nothing. */
  lemma {:induction false} CachedAnswerIsStored(cx: Codec, store: Store, cache: Cache, id: string)
    requires RoundTrips(cx) && CacheAgrees(cx, store, cache) && id in cache
    ensures ById(cx, store, id) == Ok(Some(cache[id]))
  {
  }

  lemma {:induction false} StoredKeyAnswers(cx: Codec, store: Store, added: seq<DsmState>, key: string)
    requires RoundTrips(cx) && Represents(cx, store, added) && LastWithKey(cx, added, key).Some?
    ensures ById(cx, store, key) == Ok(LastWithKey(cx, added, key))
    ensures key in store && store[key] == cx.encode(LastWithKey(cx, added, key).value)
  {
    var s := LastWithKey(cx, added, key).value;
    hide LastWithKey;
    assert s in added && StateKey(cx, s) == key;
  }

  /** For each key in turn, the state last added under it. */
  ghost function Current(cx: Codec, added: seq<DsmState>, keys: seq<string>): (r: seq<DsmState>)
    requires forall k :: k in keys ==> LastWithKey(cx, added, k).Some?
    ensures |r| == |keys| && forall i :: 0 <= i < |keys| ==> r[i] == LastWithKey(cx, added, keys[i]).value
  {
    if keys == [] then [] else [LastWithKey(cx, added, keys[0]).value] + Current(cx, added, keys[1..])
  }

  lemma {:induction false} IndexedKeysArePresent(cx: Codec, added: seq<DsmState>, block: u64)
    ensures forall k :: k in KeysAt(cx, added, block) ==> LastWithKey(cx, added, k).Some?
  {
    hide StateKey;
  }

  /** The answer to a block query in terms of the adds alone, with no assumption on the ids. */
  ghost function BlockAnswer(cx: Codec, added: seq<DsmState>, block: u64): seq<DsmState> {
    IndexedKeysArePresent(cx, added, block);
    Current(cx, added, KeysAt(cx, added, block))
  }

  /** The answer to a transaction query: what was last added under the id of the last match. */
  ghost function TxAnswer(cx: Codec, added: seq<DsmState>, tx: Hash32): Option<DsmState> {
    match LastWithTx(added, tx)
    case None => None
    case Some(s) => LastWithKey(cx, added, StateKey(cx, s))
  }

  /** No anchored state was overwritten by another state of the same id. */
  ghost predicate Faithful(cx: Codec, added: seq<DsmState>) {
    forall s :: s in added && s.anchor.Some? ==> LastWithKey(cx, added, StateKey(cx, s)) == Some(s)
  }

  /** Between the anchored states of a faithful run, keys are as good as states. */
  lemma {:induction false} FaithfulKeysAreStates(cx: Codec, added: seq<DsmState>, part: seq<DsmState>, block: u64)
    requires Faithful(cx, added) && forall s :: s in part ==> s in added
    ensures var keys, states := KeysAt(cx, part, block), StatesAt(part, block);
            && |keys| == |states|
            && forall i :: 0 <= i < |keys| ==>
                 states[i] in part && IsAt(states[i], block) && keys[i] == StateKey(cx, states[i])
    decreases |part|
  {
    if part != [] {
      var n := |part| - 1;
      assert forall s :: s in part[..n] ==> s in part;
      FaithfulKeysAreStates(cx, added, part[..n], block);
      var s := part[n];
      var keys, states := KeysAt(cx, part[..n], block), StatesAt(part[..n], block);
      hide StateKey, LastWithKey;
      if IsAt(s, block) {
        assert s in part;
        assert forall i :: 0 <= i < |states| && states[i] == s ==> keys[i] == StateKey(cx, s) && keys[i] in keys;
        if StateKey(cx, s) in keys {
          var i :| 0 <= i < |keys| && keys[i] == StateKey(cx, s);
          assert states[i] in added && s in added;
          assert states[i] == s;
        }
      }
    }
  }

  lemma {:induction false} StatesAtAreDistinct(added: seq<DsmState>, block: u64)
    ensures NoRepeats(StatesAt(added, block))
    ensures forall s :: s in StatesAt(added, block) <==> s in added && IsAt(s, block)
  {
    if added != [] {
      var n := |added| - 1;
      StatesAtAreDistinct(added[..n], block);
      assert added == added[..n] + [added[n]];
      var before := StatesAt(added[..n], block);
      var r := StatesAt(added, block);
      forall i, j | 0 <= i < j < |r| ensures r[i] != r[j] {
        assert r[i] == before[i] && before[i] in before;
        if j < |before| {
          assert r[j] == before[j];
        }
      }
    }
  }

  /**
   The index refines the list exactly when no anchored state was overwritten under its id: then,
   and only then, every block query returns the distinct states added with that block in order.
   */
  lemma {:induction false} BlockQueriesExactWhen(cx: Codec, added: seq<DsmState>)
    ensures (forall b: u64 :: BlockAnswer(cx, added, b) == StatesAt(added, b)) <==> Faithful(cx, added)
  {
    hide StateKey, LastWithKey, StatesAt;
    if Faithful(cx, added) {
      forall b: u64 ensures BlockAnswer(cx, added, b) == StatesAt(added, b) {
        FaithfulKeysAreStates(cx, added, added, b);
      }
    }
    if forall b: u64 :: BlockAnswer(cx, added, b) == StatesAt(added, b) {
      forall s | s in added && s.anchor.Some? ensures LastWithKey(cx, added, StateKey(cx, s)) == Some(s) {
        var b := s.anchor.value.block;
        assert BlockAnswer(cx, added, b) == StatesAt(added, b);
        StatesAtAreDistinct(added, b);
        AnswerHoldsOwnKey(cx, added, b, s);
      }
    }
  }

  lemma {:induction false} AnswerHoldsOwnKey(cx: Codec, added: seq<DsmState>, b: u64, s: DsmState)
    requires s in BlockAnswer(cx, added, b)
    ensures LastWithKey(cx, added, StateKey(cx, s)) == Some(s)
  {
    IndexedKeysArePresent(cx, added, b);
    hide StateKey, LastWithKey, KeysAt;
    var keys := KeysAt(cx, added, b);
    var i :| 0 <= i < |keys| && BlockAnswer(cx, added, b)[i] == s;
    assert keys[i] in keys;
  }

  // ---------------------------------------------------------------- when ids are faithful

  /** `b` without an anchor whose data is that of `a` followed by the bytes of a's anchor. */
  ghost predicate Alias(a: DsmState, b: DsmState) {
    a.anchor.Some? && b.anchor.None? && b.data == IdBytes(a)
  }

  /** Two different states hash the same bytes exactly when one is the anchorless alias of the other. */
  lemma {:induction false} SameIdBytesExactlyWhen(s: DsmState, t: DsmState)
    ensures IdBytes(s) == IdBytes(t) && s != t <==> Alias(s, t) || Alias(t, s)
  {
    if s.anchor.Some? && t.anchor.Some? && IdBytes(s) == IdBytes(t) {
      var a, b := s.anchor.value, t.anchor.value;
      var x, y := IdBytes(s), IdBytes(t);
      var n := |s.data|;
      assert |x| == n + 72 && |y| == |t.data| + 72;
      assert x[..n] == s.data && x[n..n + 8] == BigEndian(a.block, 8) && x[n + 8..n + 40] == a.tx &&
        x[n + 40..] == a.root;
      assert y[..n] == t.data && y[n..n + 8] == BigEndian(b.block, 8) && y[n + 8..n + 40] == b.tx &&
        y[n + 40..] == b.root;
      U64BigEndianInjective(a.block, b.block);
    }
    if Alias(s, t) || Alias(t, s) {
      assert s.anchor != t.anchor;
    }
  }

  /** Keccak does not collide on the id bytes of the states added. */
  ghost predicate NoCollision(cx: Codec, added: seq<DsmState>) {
    forall s, t :: s in added && t in added && cx.keccak(IdBytes(s)) == cx.keccak(IdBytes(t)) ==>
      IdBytes(s) == IdBytes(t)
  }

  /** The position at which the state that the store holds under a key was added; nothing later has that key. */
  lemma {:induction false} LastWithKeyAt(cx: Codec, added: seq<DsmState>, key: string) returns (m: nat)
    requires LastWithKey(cx, added, key).Some?
    ensures m < |added| && LastWithKey(cx, added, key) == Some(added[m]) && StateKey(cx, added[m]) == key
    ensures forall j :: m < j < |added| ==> StateKey(cx, added[j]) != key
  {
    hide StateKey;
    var n := |added| - 1;
    if StateKey(cx, added[n]) == key {
      m := n;
    } else {
      m := LastWithKeyAt(cx, added[..n], key);
    }
  }

  lemma {:induction false} SameKeySameBytes(cx: Codec, added: seq<DsmState>, s: DsmState, t: DsmState)
    requires NoCollision(cx, added) && s in added && t in added
    ensures StateKey(cx, s) == StateKey(cx, t) <==> IdBytes(s) == IdBytes(t)
  {
    hide IdBytes;
    if StateKey(cx, s) == StateKey(cx, t) {
      assert StateKey(cx, s)[10..] == Hex(cx.keccak(IdBytes(s)));
      assert StateKey(cx, t)[10..] == Hex(cx.keccak(IdBytes(t)));
      HexInjective(cx.keccak(IdBytes(s)), cx.keccak(IdBytes(t)));
    }
  }

  /** The k-th state added is an alias of the i-th, which was added before it and not again after it. */
  ghost predicate Hides(added: seq<DsmState>, i: nat, k: nat) {
    && i < k < |added| && Alias(added[i], added[k])
    && forall j :: k < j < |added| ==> added[j] != added[i]
  }

  lemma {:induction false} HidingIsUnfaithful(cx: Codec, added: seq<DsmState>, i: nat, k: nat)
    requires Hides(added, i, k)
    ensures !Faithful(cx, added)
  {
    var s, b := added[i], added[k];
    SameIdBytesExactlyWhen(s, b);
    var key := StateKey(cx, s);
    assert key == StateKey(cx, b) && s in added;
    hide StateKey, LastWithKey, IdBytes;
    var m := LastWithKeyAt(cx, added, key);
    assert added[m] != s;
  }

  lemma {:induction false} LostIsHidden(cx: Codec, added: seq<DsmState>, s: DsmState)
    requires NoCollision(cx, added) && s in added && s.anchor.Some?
    ensures LastWithKey(cx, added, StateKey(cx, s)) == Some(s) || exists i, k :: Hides(added, i, k)
  {
    hide StateKey, LastWithKey, IdBytes;
    var m := LastWithKeyAt(cx, added, StateKey(cx, s));
    var t := added[m];
    SameKeySameBytes(cx, added, s, t);
    SameIdBytesExactlyWhen(s, t);
    var i :| 0 <= i < |added| && added[i] == s;
    if s != t {
      assert Hides(added, i, m);
    }
  }

  /**
   Without digest collisions the index is faithful exactly when no anchorless alias was added after
   the last time its anchored state was.
   */
  lemma {:induction false} FaithfulExactlyWhen(cx: Codec, added: seq<DsmState>)
    requires NoCollision(cx, added)
    ensures Faithful(cx, added) <==> !exists i, k :: Hides(added, i, k)
  {
    hide StateKey, LastWithKey, IdBytes;
    if i, k :| Hides(added, i, k) {
      HidingIsUnfaithful(cx, added, i, k);
    } else {
      forall s | s in added && s.anchor.Some? ensures LastWithKey(cx, added, StateKey(cx, s)) == Some(s) {
        LostIsHidden(cx, added, s);
      }
    }
  }

  /** An alias added later does break it, for every digest: the anchored state can no longer be found. */
  lemma {:induction false} AliasBreaksTheIndex(cx: Codec, added: seq<DsmState>, a: DsmState, b: DsmState)
    requires a in added && Alias(a, b)
    ensures StateKey(cx, b) == StateKey(cx, a) && !Faithful(cx, added + [b])
    ensures a !in BlockAnswer(cx, added + [b], a.anchor.value.block)
  {
    var now := added + [b];
    assert LastWithKey(cx, now, StateKey(cx, a)) == Some(b);
    assert a in now;
    if a in BlockAnswer(cx, now, a.anchor.value.block) {
      AnswerHoldsOwnKey(cx, now, a.anchor.value.block, a);
    }
  }

  // ---------------------------------------------------------------- the manager object

  class PersistentStateManager {
    const codec: Codec
    var store: Store
    var cache: Cache
    /** The plain list manager's `states`: everything added so far. */
    ghost var added: seq<DsmState>

    ghost predicate Valid()
      reads this
    {
      RoundTrips(codec) && Represents(codec, store, added) && CacheAgrees(codec, store, cache)
    }

    constructor (cx: Codec)
      requires RoundTrips(cx)
      ensures Valid() && added == [] && codec == cx
    {
      codec, store, cache, added := cx, map[], map[], [];
    }

    method AddState(state: DsmState)
      requires Valid()
      modifies this
      ensures Valid() && added == old(added) + [state]
    {
      AddingRepresents(codec, store, added, state);
      CacheAgreesAfterAdd(codec, store, cache, state);
      var key := StateKey(codec, state);
      store := store[key := codec.encode(state)];
      store := store[LATEST_KEY := key];
      match state.anchor {
        case None =>
        case Some(a) => IndexEthereumAnchor(key, a);
      }
      cache := cache[key := state];
      added := added + [state];
    }

    method IndexEthereumAnchor(key: string, a: Anchor)
      modifies this`store
      ensures store == IndexAnchor(old(store), key, a)
    {
      var blockKey := BlockKey(a.block);
      var ids := [key];
      if blockKey in store {
        ids := Split(store[blockKey]);
        if key !in ids {
          ids := ids + [key];
        }
      }
      store := store[blockKey := Join(ids)];
      store := store[TxKey(a.tx) := key];
    }

    /**
     The cache only ever shortens the way to the stored answer. For the key of an added state, which
     is what the queries pass, and for any absent key the cache stays in agreement with the store.
     */
    method GetStateById(id: string) returns (r: Result<Option<DsmState>, Error>)
      requires Valid()
      modifies this`cache
      ensures r == ById(codec, store, id)
      ensures (id in store ==> LastWithKey(codec, added, id).Some?) ==> Valid()
    {
      if id in cache {
        CachedAnswerIsStored(codec, store, cache, id);
        return Ok(Some(cache[id]));
      }
      if id !in store {
        return Ok(None);
      }
      var decoded := codec.decode(store[id]);
      if decoded.None? {
        return Err(Undecodable);
      }
      ghost var known := LastWithKey(codec, added, id).Some?;
      if known {
        StoredKeyAnswers(codec, store, added, id);
      }
      hide Represents, StateKey, LastWithKey;
      cache := cache[id := decoded.value];
      r := Ok(Some(decoded.value));
    }

    /** Entries may leave the cache at any time. */
    method DropFromCache(ids: set<string>)
      requires Valid()
      modifies this`cache
      ensures Valid()
    {
      cache := cache - ids;
    }

    method LatestState() returns (r: Result<Option<DsmState>, Error>)
      requires Valid()
      modifies this`cache
      ensures Valid()
      ensures r == Ok(if added == [] then None else Some(added[|added| - 1]))
    {
      if LATEST_KEY !in store {
        return Ok(None);
      }
      StoredKeyAnswers(codec, store, added, store[LATEST_KEY]);
      hide Represents;
      r := GetStateById(store[LATEST_KEY]);
    }

    method FindStateByTxHash(tx: Hash32) returns (r: Result<Option<DsmState>, Error>)
      requires Valid()
      modifies this`cache
      ensures Valid()
      ensures r == Ok(TxAnswer(codec, added, tx))
      ensures Faithful(codec, added) ==> r == Ok(LastWithTx(added, tx))
    {
      if TxKey(tx) !in store {
        assert LastWithTx(added, tx).None?;
        return Ok(None);
      }
      assert LastWithTx(added, tx).Some?;
      StoredKeyAnswers(codec, store, added, store[TxKey(tx)]);
      hide Represents;
      r := GetStateById(store[TxKey(tx)]);
    }

    method FindStatesByEthBlock(block: u64) returns (r: Result<seq<DsmState>, Error>)
      requires Valid()
      modifies this`cache
      ensures Valid()
      ensures r == Ok(BlockAnswer(codec, added, block))
      ensures Faithful(codec, added) ==> r == Ok(StatesAt(added, block))
    {
      BlockQueriesExactWhen(codec, added);
      IndexedKeysArePresent(codec, added, block);
      if BlockKey(block) !in store {
        assert KeysAt(codec, added, block) == [];
        return Ok([]);
      }
      var ids := Split(store[BlockKey(block)]);
      IndexSplits(codec, store, added, block);
      hide Represents, KeysAt, BlockKey;
      r := LoadAll(ids);
    }

    /** Loading keys of added states one by one yields the state last added under each. */
    method LoadAll(ids: seq<string>) returns (r: Result<seq<DsmState>, Error>)
      requires Valid() && forall k :: k in ids ==> LastWithKey(codec, added, k).Some?
      modifies this`cache
      ensures Valid() && r == Ok(Current(codec, added, ids))
    {
      hide Represents, StateKey, LastWithKey;
      var states: seq<DsmState> := [];
      for i := 0 to |ids|
        invariant Valid() && |states| == i
        invariant forall k :: 0 <= k < i ==> Some(states[k]) == LastWithKey(codec, added, ids[k])
      {
        assert ids[i] in ids;
        StoredKeyAnswers(codec, store, added, ids[i]);
        var found := GetStateById(ids[i]);
        match found {
          case Err(e) => return Err(e);
          case Ok(None) =>
          case Ok(Some(state)) => states := states + [state];
        }
      }
      assert states == Current(codec, added, ids);
      r := Ok(states);
    }
  }

  lemma {:induction false} CacheAgreesAfterAdd(cx: Codec, store: Store, cache: Cache, s: DsmState)
    requires CacheAgrees(cx, store, cache)
    ensures CacheAgrees(cx, Stored(cx, store, s), cache[StateKey(cx, s) := s])
  {
    StateEntryAfter(cx, store, s, s);
    hide StateKey, Stored;
    forall id | id in cache && id != StateKey(cx, s)
      ensures id in Stored(cx, store, s) && Stored(cx, store, s)[id] == cx.encode(cache[id])
    {
      StateEntryAfter(cx, store, s, cache[id]);
    }
  }
}
