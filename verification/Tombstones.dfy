/** Tombstone publication and lookup in the directory store (dsm/src/communication/directory.rs). */
module Tombstones {
  import opened Common
  import opened Text

  datatype TombstoneType = StateInvalidation | IdentityRevocation | DeviceRevocation

  datatype EntryType = Genesis | Invalidation | StateTransition

  datatype DirectoryEntry = DirectoryEntry(data: Bytes, stateNumber: u64, timestamp: u64, entryType: EntryType)

  datatype Error = ClockFailed | SerializationFailed

  /** What `publish_state` files a state as. */
  function StateEntryType(number: u64): EntryType {
    if number == 0 then Genesis else StateTransition
  }

  function Prefix(t: TombstoneType): string {
    match t
    case StateInvalidation => "state_invalidation"
    case IdentityRevocation => "identity_revocation"
    case DeviceRevocation => "device_revocation"
  }

  // ---------------------------------------------------------------- text search

  predicate OccursAt(s: string, needle: string, i: nat) {
    i + |needle| <= |s| && s[i..i + |needle|] == needle
  }

  /** `str::contains`. */
  predicate Contains(s: string, needle: string) {
    exists i | 0 <= i <= |s| :: OccursAt(s, needle, i)
  }

  lemma {:induction false} OccurrenceShifts(a: string, b: string, c: string, needle: string, i: nat)
    requires OccursAt(b, needle, i)
    ensures OccursAt(a + b + c, needle, |a| + i)
  {
    assert (a + b + c)[|a| + i..|a| + i + |needle|] == b[i..i + |needle|];
  }

  lemma {:induction false} OccurrenceInSegment(a: string, b: string, needle: string, i: nat)
    requires OccursAt(a + "_" + b, needle, i)
    ensures '_' in needle || OccursAt(a, needle, i) || (i > |a| && OccursAt(b, needle, i - |a| - 1))
  {
    var s := a + "_" + b;
    if i + |needle| <= |a| {
      assert a[i..i + |needle|] == s[i..i + |needle|];
    } else if i > |a| {
      assert b[i - |a| - 1..i - |a| - 1 + |needle|] == s[i..i + |needle|];
    } else {
      assert s[i..i + |needle|][|a| - i] == s[|a|] == '_';
      assert needle[|a| - i] in needle;
    }
  }

  /** A needle without underscores can only lie inside one of the two segments. */
  lemma {:induction false} ContainsBySegment(a: string, b: string, needle: string)
    requires '_' !in needle
    ensures Contains(a + "_" + b, needle) <==> Contains(a, needle) || Contains(b, needle)
  {
    var s := a + "_" + b;
    if Contains(s, needle) {
      var i :| 0 <= i <= |s| && OccursAt(s, needle, i);
      OccurrenceInSegment(a, b, needle, i);
    }
    if Contains(a, needle) {
      var i :| 0 <= i <= |a| && OccursAt(a, needle, i);
      OccurrenceShifts("", a, "_" + b, needle, i);
      assert "" + a + ("_" + b) == s;
    }
    if Contains(b, needle) {
      var i :| 0 <= i <= |b| && OccursAt(b, needle, i);
      OccurrenceShifts(a + "_", b, "", needle, i);
      assert a + "_" + b + "" == s;
    }
  }

  lemma {:induction false} ContainsOfEqualLength(s: string, needle: string)
    requires |s| == |needle|
    ensures Contains(s, needle) <==> s == needle
  {
    if Contains(s, needle) {
      var i :| 0 <= i <= |s| && OccursAt(s, needle, i);
      assert i == 0 && s[0..|s|] == s;
    }
    if s == needle {
      assert s[0..|s|] == s;
      assert OccursAt(s, needle, 0);
    }
  }

  lemma {:induction false} TooLongToOccur(s: string, needle: string)
    requires |s| < |needle|
    ensures !Contains(s, needle)
  {
  }

  function Pow10(k: nat): nat {
    if k == 0 then 1 else 10 * Pow10(k - 1)
  }

  lemma {:induction false} DecimalLength(n: nat, k: nat)
    requires k > 0 && n < Pow10(k)
    ensures |Decimal(n)| <= k
  {
    if n >= 10 {
      assert k > 1 by {
        assert Pow10(1) == 10 * Pow10(0);
      }
      DecimalLength(n / 10, k - 1);
    }
  }

  lemma {:induction false} TimestampLength(secs: u64)
    ensures |Decimal(secs)| <= 20
  {
    assert Pow10(4) == 1_0000;
    assert Pow10(8) == 1_0000_0000;
    assert Pow10(12) == 1_0000_0000_0000;
    assert Pow10(16) == 1_0000_0000_0000_0000;
    assert Pow10(20) == 1_0000_0000_0000_0000_0000;
    DecimalLength(secs, 20);
  }

  // ---------------------------------------------------------------- keys

  function TombstoneKey(hash: Bytes, t: TombstoneType, secs: u64): string {
    Prefix(t) + "_" + Hex(hash) + "_" + Decimal(secs)
  }

  function InvalidationKey(identity: string): string {
    "invalidation_" + identity
  }

  function GenesisKey(hash: Bytes): string {
    "genesis_" + Hex(hash)
  }

  /** The test that `check_tombstone` applies to each key. */
  predicate Matches(key: string, hash: Bytes, t: TombstoneType) {
    Prefix(t) <= key && Contains(key, Hex(hash))
  }

  predicate Found(keys: set<string>, hash: Bytes, t: TombstoneType) {
    exists key | key in keys :: Matches(key, hash, t)
  }

  /** What the service's methods do to the key set. */
  datatype Event =
    | Tombstone(hash: Bytes, t: TombstoneType, secs: u64)
    | StateEntry(id: string)
    | InvalidationEntry(identity: string)
    | GenesisEntry(genesis: Bytes)
    | Removal(key: string)
    | Clearing

  predicate Writes(e: Event) {
    !e.Removal? && !e.Clearing?
  }

  function KeyOf(e: Event): string
    requires Writes(e)
  {
    match e
    case Tombstone(hash, t, secs) => TombstoneKey(hash, t, secs)
    case StateEntry(id) => id
    case InvalidationEntry(identity) => InvalidationKey(identity)
    case GenesisEntry(hash) => GenesisKey(hash)
  }

  function Effect(keys: set<string>, e: Event): set<string> {
    match e
    case Removal(key) => keys - {key}
    case Clearing => {}
    case _ => keys + {KeyOf(e)}
  }

  function KeysAfter(run: seq<Event>): set<string> {
    if run == [] then {} else Effect(KeysAfter(run[..|run| - 1]), run[|run| - 1])
  }

  predicate Erases(e: Event, key: string) {
    e.Clearing? || e == Removal(key)
  }

  /** The i-th event wrote `key` and nothing since took it away. */
  ghost predicate Stands(run: seq<Event>, i: nat, key: string) {
    i < |run| && Writes(run[i]) && KeyOf(run[i]) == key && forall j :: i < j < |run| ==> !Erases(run[j], key)
  }

  lemma {:induction false} StandsStep(run: seq<Event>, i: nat, key: string)
    requires run != []
    ensures var before, last := run[..|run| - 1], run[|run| - 1];
            Stands(run, i, key) <==>
            if i == |run| - 1 then Writes(last) && KeyOf(last) == key else Stands(before, i, key) && !Erases(last, key)
  {
    hide KeyOf;
    var before := run[..|run| - 1];
    assert forall j :: 0 <= j < |before| ==> before[j] == run[j];
  }

  lemma {:induction false} KeptExactlyWhen(run: seq<Event>, key: string)
    ensures key in KeysAfter(run) <==> exists i: nat :: Stands(run, i, key)
  {
    hide KeyOf;
    if run != [] {
      var before, last := run[..|run| - 1], run[|run| - 1];
      KeptExactlyWhen(before, key);
      forall i: nat
        ensures Stands(run, i, key) <==>
                if i == |run| - 1
                then Writes(last) && KeyOf(last) == key
                else Stands(before, i, key) && !Erases(last, key)
      {
        StandsStep(run, i, key);
      }
      hide Stands;
      if key in KeysAfter(run) {
        if Writes(last) && KeyOf(last) == key {
          assert Stands(run, |run| - 1, key);
        } else {
          var i: nat :| Stands(before, i, key);
          assert i < |before| by { StandsInside(before, i, key); }
          assert Stands(run, i, key);
        }
      }
    }
  }

  lemma {:induction false} StandsInside(run: seq<Event>, i: nat, key: string)
    requires Stands(run, i, key)
    ensures i < |run|
  {
  }

  // ---------------------------------------------------------------- what one key can match

  lemma {:induction false} HexHasNoUnderscore(hash: Bytes)
    ensures '_' !in Hex(hash)
  {
    assert !IsHexDigit('_');
  }

  lemma {:induction false} OtherPrefixesDiffer(t: TombstoneType, other: TombstoneType, rest: string)
    ensures Prefix(t) <= Prefix(other) + rest <==> t == other
  {
    var s := Prefix(other) + rest;
    assert s[0] == Prefix(other)[0];
    assert Prefix(t) <= s ==> s[0] == Prefix(t)[0];
  }

  /** The exact set of queries that one tombstone answers, for hashes of every length. */
  lemma {:induction false} TombstoneMatchesExactlyWhen(hash: Bytes, t: TombstoneType, secs: u64, wanted: Bytes,
                                                       kind: TombstoneType)
    ensures Matches(TombstoneKey(hash, t, secs), wanted, kind) <==>
            kind == t &&
            (Contains(Prefix(t), Hex(wanted)) || Contains(Hex(hash), Hex(wanted)) ||
              Contains(Decimal(secs), Hex(wanted)))
  {
    HexHasNoUnderscore(wanted);
    hide Contains, Hex, Decimal;
    var rest := "_" + Hex(hash) + "_" + Decimal(secs);
    assert TombstoneKey(hash, t, secs) == Prefix(t) + rest;
    OtherPrefixesDiffer(kind, t, rest);
    hide Prefix;
    ContainsBySegment(Prefix(t) + "_" + Hex(hash), Decimal(secs), Hex(wanted));
    ContainsBySegment(Prefix(t), Hex(hash), Hex(wanted));
  }

  /**
   From 11 bytes up the hexadecimal needle is longer than any timestamp and any type prefix, so a
   tombstone for a hash that is not longer answers for that very hash only.
   */
  lemma {:induction false} TombstoneMatchesItsHashOnly(hash: Bytes, t: TombstoneType, secs: u64, wanted: Bytes,
                                                       kind: TombstoneType)
    requires |wanted| >= 11 && |hash| <= |wanted|
    ensures Matches(TombstoneKey(hash, t, secs), wanted, kind) <==> kind == t && wanted == hash
  {
    TombstoneMatchesExactlyWhen(hash, t, secs, wanted, kind);
    TimestampLength(secs);
    TooLongToOccur(Decimal(secs), Hex(wanted));
    TooLongToOccur(Prefix(t), Hex(wanted));
    if |hash| < |wanted| {
      TooLongToOccur(Hex(hash), Hex(wanted));
    } else {
      ContainsOfEqualLength(Hex(hash), Hex(wanted));
      if Hex(hash) == Hex(wanted) {
        HexInjective(hash, wanted);
      }
    }
  }

  lemma {:induction false} OtherKeysNeverMatch(identity: string, genesis: Bytes, wanted: Bytes, kind: TombstoneType)
    ensures !Matches(InvalidationKey(identity), wanted, kind)
    ensures !Matches(GenesisKey(genesis), wanted, kind)
  {
    assert InvalidationKey(identity)[0] == 'i' && InvalidationKey(identity)[1] == 'n';
    assert GenesisKey(genesis)[0] == 'g';
    assert Prefix(kind)[0] != 'g' && (Prefix(kind)[0] == 'i' ==> Prefix(kind)[1] == 'd');
  }

  /** The exact set of queries that one written key answers. */
  predicate Answers(e: Event, hash: Bytes, t: TombstoneType) {
    match e
    case Tombstone(h, k, secs) =>
      k == t && (Contains(Prefix(t), Hex(hash)) || Contains(Hex(h), Hex(hash)) || Contains(Decimal(secs), Hex(hash)))
    case StateEntry(id) => Matches(id, hash, t)
    case _ => false
  }

  lemma {:induction false} MatchesExactlyWhen(e: Event, hash: Bytes, t: TombstoneType)
    requires Writes(e)
    ensures Matches(KeyOf(e), hash, t) <==> Answers(e, hash, t)
  {
    hide Matches, TombstoneKey, InvalidationKey, GenesisKey, Contains, Prefix;
    match e
    case Tombstone(h, k, secs) => TombstoneMatchesExactlyWhen(h, k, secs, hash, t);
    case InvalidationEntry(identity) => OtherKeysNeverMatch(identity, [], hash, t);
    case GenesisEntry(genesis) => OtherKeysNeverMatch("", genesis, hash, t);
    case StateEntry(id) =>
  }

  // ---------------------------------------------------------------- lookups over whole runs

  /** The i-th event wrote a key that is still there. */
  ghost predicate StandsAt(run: seq<Event>, i: nat) {
    i < |run| && Writes(run[i]) && Stands(run, i, KeyOf(run[i]))
  }

  /** In every run, for every hash and without any condition: which writes make the lookup true. */
  lemma {:induction false} LookupExactlyWhen(run: seq<Event>, hash: Bytes, t: TombstoneType)
    ensures Found(KeysAfter(run), hash, t) <==> exists i: nat :: StandsAt(run, i) && Answers(run[i], hash, t)
  {
    hide Matches, KeysAfter, KeyOf, Answers;
    if Found(KeysAfter(run), hash, t) {
      var key :| key in KeysAfter(run) && Matches(key, hash, t);
      KeptExactlyWhen(run, key);
      var i: nat :| Stands(run, i, key);
      MatchesExactlyWhen(run[i], hash, t);
      assert StandsAt(run, i);
    }
    if i: nat :| StandsAt(run, i) && Answers(run[i], hash, t) {
      MatchesExactlyWhen(run[i], hash, t);
      KeptExactlyWhen(run, KeyOf(run[i]));
    }
  }

  /** A tombstone for this hash and type was published, and its own key has not been erased since. */
  ghost predicate Standing(run: seq<Event>, hash: Bytes, t: TombstoneType) {
    exists i: nat :: StandsAt(run, i) && run[i].Tombstone? && run[i].hash == hash && run[i].t == t
  }

  /** A state whose id passes for a tombstone of this hash and type is still in the store. */
  ghost predicate Posing(run: seq<Event>, hash: Bytes, t: TombstoneType) {
    exists i: nat :: StandsAt(run, i) && run[i].StateEntry? && Matches(run[i].id, hash, t)
  }

  /** The hash asked for has at least 11 bytes, and no tombstone is for a longer one. */
  ghost predicate LongEnough(run: seq<Event>, hash: Bytes) {
    |hash| >= 11 && forall i :: 0 <= i < |run| && run[i].Tombstone? ==> |run[i].hash| <= |hash|
  }

  lemma {:induction false} AnswersItsHashOnly(e: Event, hash: Bytes, t: TombstoneType)
    requires |hash| >= 11 && (e.Tombstone? ==> |e.hash| <= |hash|)
    ensures Answers(e, hash, t) <==>
            (e.Tombstone? && e.hash == hash && e.t == t) || (e.StateEntry? && Matches(e.id, hash, t))
  {
    if Writes(e) {
      MatchesExactlyWhen(e, hash, t);
      hide Matches, TombstoneKey;
      if e.Tombstone? {
        TombstoneMatchesItsHashOnly(e.hash, e.t, e.secs, hash, t);
      }
    }
  }

  /** State ids stay out of the tombstones' name space. */
  ghost predicate WellNamed(run: seq<Event>) {
    forall i :: 0 <= i < |run| && run[i].StateEntry? ==> forall t :: !(Prefix(t) <= run[i].id)
  }

  /**
   In every run, removals included, the lookup is true exactly when a tombstone for that hash and
   type stands or a state id poses as one; only the first is left when state ids are well named.
   */
  lemma {:induction false} LookupIsExact(run: seq<Event>, hash: Bytes, t: TombstoneType)
    requires LongEnough(run, hash)
    ensures Found(KeysAfter(run), hash, t) <==> Standing(run, hash, t) || Posing(run, hash, t)
    ensures WellNamed(run) ==> (Found(KeysAfter(run), hash, t) <==> Standing(run, hash, t))
  {
    LookupExactlyWhen(run, hash, t);
    forall i: nat | StandsAt(run, i)
      ensures Answers(run[i], hash, t) <==>
              (run[i].Tombstone? && run[i].hash == hash && run[i].t == t) ||
                (run[i].StateEntry? && Matches(run[i].id, hash, t))
    {
      AnswersItsHashOnly(run[i], hash, t);
    }
    NonePosesWhenWellNamed(run, hash, t);
    hide Found, KeysAfter, Answers, Matches, StandsAt, WellNamed;
  }

  lemma {:induction false} NonePosesWhenWellNamed(run: seq<Event>, hash: Bytes, t: TombstoneType)
    ensures WellNamed(run) ==> !Posing(run, hash, t)
  {
    hide Prefix, Contains;
  }

  ghost predicate NothingErased(run: seq<Event>) {
    forall i :: 0 <= i < |run| ==> Writes(run[i])
  }

  ghost predicate Published(run: seq<Event>, hash: Bytes, t: TombstoneType) {
    exists i :: 0 <= i < |run| && run[i].Tombstone? && run[i].hash == hash && run[i].t == t
  }

  /** Without removals every write stands. */
  lemma {:induction false} AllStand(run: seq<Event>, i: nat)
    requires NothingErased(run) && i < |run|
    ensures StandsAt(run, i)
  {
    hide KeyOf;
  }

  lemma {:induction false} KeysOnlyGrow(run: seq<Event>, n: nat)
    requires NothingErased(run) && n <= |run|
    ensures KeysAfter(run[..n]) <= KeysAfter(run)
    decreases |run| - n
  {
    if n == |run| {
      assert run[..n] == run;
    } else {
      KeysOnlyGrow(run, n + 1);
      assert run[..n + 1][..n] == run[..n] && run[..n + 1][n] == run[n];
    }
  }

  /**
   Forward only: without removals a true answer never reverts, for every hash. For long enough
   hashes and well-named states it is true exactly from the first publication on.
   */
  lemma {:induction false} ForwardOnly(run: seq<Event>, n: nat, hash: Bytes, t: TombstoneType)
    requires NothingErased(run) && n <= |run|
    ensures Found(KeysAfter(run[..n]), hash, t) ==> Found(KeysAfter(run), hash, t)
    ensures LongEnough(run, hash) ==>
              (Found(KeysAfter(run[..n]), hash, t) <==> Published(run[..n], hash, t) || Posing(run[..n], hash, t))
    ensures LongEnough(run, hash) && WellNamed(run) ==>
              (Found(KeysAfter(run[..n]), hash, t) <==> Published(run[..n], hash, t))
  {
    KeysOnlyGrow(run, n);
    hide KeysAfter, Matches;
    assert forall i :: 0 <= i < n ==> run[..n][i] == run[i];
    PublishedStands(run[..n], hash, t);
    if LongEnough(run, hash) {
      LookupIsExact(run[..n], hash, t);
    }
  }

  lemma {:induction false} PublishedStands(run: seq<Event>, hash: Bytes, t: TombstoneType)
    requires NothingErased(run)
    ensures Published(run, hash, t) <==> Standing(run, hash, t)
  {
    if Published(run, hash, t) {
      var i :| 0 <= i < |run| && run[i].Tombstone? && run[i].hash == hash && run[i].t == t;
      AllStand(run, i);
    }
  }

  /** The hypotheses are needed: a state id can pose as a tombstone that nobody published. */
  lemma {:induction false} StateIdForgesATombstone(hash: Bytes, t: TombstoneType)
    ensures Found(KeysAfter([StateEntry(Prefix(t) + Hex(hash))]), hash, t)
    ensures !Published([StateEntry(Prefix(t) + Hex(hash))], hash, t)
  {
    var id := Prefix(t) + Hex(hash);
    var run := [StateEntry(id)];
    ContainsOfEqualLength(Hex(hash), Hex(hash));
    var i :| 0 <= i <= |Hex(hash)| && OccursAt(Hex(hash), Hex(hash), i);
    OccurrenceShifts(Prefix(t), Hex(hash), "", Hex(hash), i);
    assert Prefix(t) + Hex(hash) + "" == id;
    assert run[..0] == [] && KeysAfter(run) == {id};
    assert Matches(id, hash, t);
  }

  /** An empty hash is reported as tombstoned once anything of that type is. */
  lemma {:induction false} EmptyHashMatchesAll(run: seq<Event>, i: nat)
    requires i < |run| && run[i].Tombstone? && NothingErased(run)
    ensures Found(KeysAfter(run), [], run[i].t)
  {
    AllStand(run, i);
    assert OccursAt(Prefix(run[i].t), Hex([]), 0);
    LookupExactlyWhen(run, [], run[i].t);
  }

  // ---------------------------------------------------------------- the service

  class DirectoryService {
    var store: map<string, DirectoryEntry>
    /** Every effect on the key set so far. */
    ghost var history: seq<Event>

    ghost predicate Valid()
      reads this
    {
      store.Keys == KeysAfter(history)
    }

    constructor ()
      ensures Valid() && store == map[] && history == []
    {
      store, history := map[], [];
    }

    /** The clock is read twice; a failing read returns before the store is touched. */
    method PublishTombstone(hash: Bytes, t: TombstoneType, clock: Option<u64>,
                            secondClock: Option<u64>) returns (r: Result<(), Error>)
      requires Valid()
      modifies this
      ensures Valid()
      ensures r.Ok? <==> clock.Some? && secondClock.Some?
      ensures r.Err? ==> store == old(store) && history == old(history)
      ensures r.Ok? ==>
                history == old(history) + [Tombstone(hash, t, clock.value)] &&
                var entry := DirectoryEntry(hash, 0, secondClock.value, Invalidation);
                store == old(store)[TombstoneKey(hash, t, clock.value) := entry]
    {
      if clock.None? || secondClock.None? {
        return Err(ClockFailed);
      }
      ExtendHistory(history, Tombstone(hash, t, clock.value));
      store := store[TombstoneKey(hash, t, clock.value) := DirectoryEntry(hash, 0, secondClock.value, Invalidation)];
      history := history + [Tombstone(hash, t, clock.value)];
      return Ok(());
    }

    /** The keys are visited in any order; the first hit answers. */
    method CheckTombstone(hash: Bytes, t: TombstoneType) returns (found: bool)
      requires Valid()
      ensures found <==> Found(store.Keys, hash, t)
      ensures found <==> exists i: nat :: StandsAt(history, i) && Answers(history[i], hash, t)
      ensures LongEnough(history, hash) ==> (found <==> Standing(history, hash, t) || Posing(history, hash, t))
    {
      hide Matches, Standing, Posing, LongEnough, StandsAt, Answers;
      LookupExactlyWhen(history, hash, t);
      if LongEnough(history, hash) {
        LookupIsExact(history, hash, t);
      }
      var pending := store.Keys;
      while pending != {}
        invariant pending <= store.Keys
        invariant forall key :: key in store.Keys && key !in pending ==> !Matches(key, hash, t)
      {
        var key :| key in pending;
        if Matches(key, hash, t) {
          return true;
        }
        pending := pending - {key};
      }
      return false;
    }

    /** The local part of `publish_state`. */
    method PublishState(id: string, number: u64, serialized: Option<Bytes>,
                        clock: Option<u64>) returns (r: Result<(), Error>)
      requires Valid()
      modifies this
      ensures Valid()
      ensures r == if serialized.None? then Err(SerializationFailed)
        else if clock.None? then Err(ClockFailed) else Ok(())
      ensures r.Err? ==> store == old(store) && history == old(history)
      ensures r.Ok? ==>
                history == old(history) + [StateEntry(id)] &&
                store == old(store)[id := DirectoryEntry(serialized.value, number, clock.value, StateEntryType(number))]
    {
      if serialized.None? {
        return Err(SerializationFailed);
      }
      if clock.None? {
        return Err(ClockFailed);
      }
      ExtendHistory(history, StateEntry(id));
      store := store[id := DirectoryEntry(serialized.value, number, clock.value, StateEntryType(number))];
      history := history + [StateEntry(id)];
      return Ok(());
    }

    /** The local part of `publish_invalidation`. */
    method PublishInvalidation(identity: string, clock: Option<u64>,
                               marker: Option<Bytes>) returns (r: Result<(), Error>)
      requires Valid()
      modifies this
      ensures Valid()
      ensures r == if clock.None? then Err(ClockFailed) else if marker.None? then Err(SerializationFailed) else Ok(())
      ensures r.Err? ==> store == old(store) && history == old(history)
      ensures r.Ok? ==>
                history == old(history) + [InvalidationEntry(identity)] &&
                var entry := DirectoryEntry(marker.value, 0, clock.value, Invalidation);
                store == old(store)[InvalidationKey(identity) := entry]
    {
      if clock.None? {
        return Err(ClockFailed);
      }
      if marker.None? {
        return Err(SerializationFailed);
      }
      ExtendHistory(history, InvalidationEntry(identity));
      store := store[InvalidationKey(identity) := DirectoryEntry(marker.value, 0, clock.value, Invalidation)];
      history := history + [InvalidationEntry(identity)];
      return Ok(());
    }

    /**
     The entry that `retrieve_state`, `verify_genesis_state` or `check_invalidation` keeps of a
     remote answer, under its state id, genesis or invalidation key.
     */
    method KeepFetched(e: Event, entry: DirectoryEntry)
      requires Valid() && (e.StateEntry? || e.GenesisEntry? || e.InvalidationEntry?)
      modifies this
      ensures Valid() && history == old(history) + [e] && store == old(store)[KeyOf(e) := entry]
    {
      ExtendHistory(history, e);
      store := store[KeyOf(e) := entry];
      history := history + [e];
    }

    method Remove(key: string)
      requires Valid()
      modifies this
      ensures Valid() && history == old(history) + [Removal(key)] && store == old(store) - {key}
    {
      ExtendHistory(history, Removal(key));
      store := store - {key};
      history := history + [Removal(key)];
    }

    method Clear()
      requires Valid()
      modifies this
      ensures Valid() && history == old(history) + [Clearing] && store == map[]
    {
      ExtendHistory(history, Clearing);
      store := map[];
      history := history + [Clearing];
    }
  }

  lemma {:induction false} ExtendHistory(run: seq<Event>, e: Event)
    ensures KeysAfter(run + [e]) == Effect(KeysAfter(run), e)
  {
    assert (run + [e])[..|run|] == run;
  }
}
