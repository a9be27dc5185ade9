/** What a hash chain that passes the pairwise check commits to, and what it does not. */
module TamperEvidence {
  import opened Common
  import opened HashChain

  const DIGEST_SIZE := 32

  /** Two states whose different hashed bytes have the same digest. */
  ghost predicate Collision(h: Digest, a: State, b: State) {
    Preimage(a).Some? && Preimage(b).Some? && Preimage(a) != Preimage(b) && ComputeHash(h, a) == ComputeHash(h, b)
  }

  ghost predicate NoCollision(h: Digest, c: seq<State>, d: seq<State>) {
    forall a, b :: a in c && b in d ==> !Collision(h, a, b)
  }

  /** The fields that `compute_hash` covers. */
  ghost predicate SameHashedFields(a: State, b: State) {
    a.number == b.number && a.prevHash == b.prevHash && a.payload == b.payload
  }

  /** A state whose own hash was checked against its contents, as every linked upper state is. */
  ghost predicate SelfHashed(h: Digest, s: State) {
    ComputeHash(h, s) == Some(s.storedHash)
  }

  lemma {:induction false} UpperStatesAreSelfHashed(h: Digest, c: seq<State>, i: nat)
    requires Chain(h, c) && 0 < i < |c|
    ensures SelfHashed(h, c[i]) && HashOf(h, c[i - 1]) == Some(c[i].prevHash)
  {
    LinkMeaning(h, c[i - 1], c[i]);
  }

  /** Equal digests without a collision mean equal hashed bytes, hence equal numbers. */
  lemma {:induction false} SameDigestSameBytes(h: Digest, a: State, b: State)
    requires SelfHashed(h, a) && SelfHashed(h, b) && a.storedHash == b.storedHash && !Collision(h, a, b)
    ensures Preimage(a) == Preimage(b) && Preimage(a).Some?
    ensures a.number == b.number
    ensures a.prevHash + a.payload.value == b.prevHash + b.payload.value
  {
    var x, y := Preimage(a).value, Preimage(b).value;
    assert x[..8] == LittleEndian(a.number, 8) && x[8..] == a.prevHash + a.payload.value;
    assert y[..8] == LittleEndian(b.number, 8) && y[8..] == b.prevHash + b.payload.value;
    U64LittleEndianInjective(a.number, b.number);
  }

  /** Two hashed states with previous hashes of one length agree on every hashed field. */
  lemma {:induction false} SameLengthSameFields(h: Digest, a: State, b: State)
    requires SelfHashed(h, a) && SelfHashed(h, b) && a.storedHash == b.storedHash && !Collision(h, a, b)
    requires |a.prevHash| == |b.prevHash|
    ensures SameHashedFields(a, b)
  {
    SameDigestSameBytes(h, a, b);
    var n := |a.prevHash|;
    assert (a.prevHash + a.payload.value)[..n] == a.prevHash && (b.prevHash + b.payload.value)[..n] == b.prevHash;
    assert (a.prevHash + a.payload.value)[n..] == a.payload.value;
    assert (b.prevHash + b.payload.value)[n..] == b.payload.value;
  }

  lemma {:induction false} PrevHashSize(h: Digest, c: seq<State>, i: nat)
    requires forall x :: |h(x)| == DIGEST_SIZE
    requires Chain(h, c) && 1 < i < |c|
    ensures c[i].prevHash == c[i - 1].storedHash && |c[i].prevHash| == DIGEST_SIZE
  {
    UpperStatesAreSelfHashed(h, c, i);
    UpperStatesAreSelfHashed(h, c, i - 1);
  }

  /** The digest of the top state fixes the digest of every state above genesis. */
  lemma {:induction false} DigestsAgreeDownTo(h: Digest, c: seq<State>, d: seq<State>, i: nat)
    requires forall x :: |h(x)| == DIGEST_SIZE
    requires Chain(h, c) && Chain(h, d) && NoCollision(h, c, d) && |c| == |d|
    requires c[|c| - 1].storedHash == d[|d| - 1].storedHash
    requires 0 < i < |c|
    ensures c[i].storedHash == d[i].storedHash
    decreases |c| - i
  {
    if i + 1 < |c| {
      DigestsAgreeDownTo(h, c, d, i + 1);
      UpperStatesAreSelfHashed(h, c, i + 1);
      UpperStatesAreSelfHashed(h, d, i + 1);
      PrevHashSize(h, c, i + 1);
      PrevHashSize(h, d, i + 1);
      SameLengthSameFields(h, c[i + 1], d[i + 1]);
    }
  }

  /** A genesis state whose hash is the recomputed one, as when it stores none. */
  ghost predicate RecomputesHash(h: Digest, g: State) {
    HashOf(h, g) == ComputeHash(h, g)
  }

  /**
   One history: equal lengths and equal fields from state 2 up, from state 1 up when the genesis
   hashes have one length, and from genesis up when its hash is recomputed.
   */
  ghost predicate Agree(h: Digest, c: seq<State>, d: seq<State>) {
    && |c| == |d| > 1
    && (forall i :: 1 < i < |c| ==> SameHashedFields(c[i], d[i]))
    && (|c[1].prevHash| == |d[1].prevHash| ==> SameHashedFields(c[1], d[1]) && HashOf(h, c[0]) == HashOf(h, d[0]))
    && (RecomputesHash(h, c[0]) && RecomputesHash(h, d[0]) ==>
          && (forall i :: 0 < i < |c| ==> SameHashedFields(c[i], d[i]))
          && Preimage(c[0]) == Preimage(d[0])
          && (|c[0].prevHash| == |d[0].prevHash| ==> SameHashedFields(c[0], d[0])))
  }

  /** Tamper evidence: without a collision, two chains that end in the same stored hash are one history. */
  lemma {:induction false} AcceptedChainsAgree(h: Digest, c: seq<State>, d: seq<State>)
    requires forall x :: |h(x)| == DIGEST_SIZE
    requires Chain(h, c) && Chain(h, d) && NoCollision(h, c, d) && |c| > 1 && |d| > 1
    requires c[|c| - 1].storedHash == d[|d| - 1].storedHash
    ensures Agree(h, c, d)
  {
    UpperStatesAreSelfHashed(h, c, |c| - 1);
    UpperStatesAreSelfHashed(h, d, |d| - 1);
    SameDigestSameBytes(h, c[|c| - 1], d[|d| - 1]);
    forall i | 1 < i < |c| ensures SameHashedFields(c[i], d[i]) {
      SameFieldsAt(h, c, d, i);
    }
    UpperStatesAreSelfHashed(h, c, 1);
    UpperStatesAreSelfHashed(h, d, 1);
    if |c[1].prevHash| == |d[1].prevHash| {
      SameFieldsAt(h, c, d, 1);
      assert !Collision(h, c[0], d[0]);
    }
    if RecomputesHash(h, c[0]) && RecomputesHash(h, d[0]) {
      if |c[0].prevHash| == |d[0].prevHash| {
        SameGenesisBytes(c[0], d[0]);
      }
    }
  }

  lemma {:induction false} SameGenesisBytes(a: State, b: State)
    requires a.number == b.number && |a.prevHash| == |b.prevHash|
    ensures Preimage(a).Some? && Preimage(a) == Preimage(b) ==> SameHashedFields(a, b)
  {
    if Preimage(a).Some? && Preimage(a) == Preimage(b) {
      var x, n := Preimage(a).value, |a.prevHash|;
      assert x[8..8 + n] == a.prevHash && x[8..8 + n] == b.prevHash;
      assert x[8 + n..] == a.payload.value && x[8 + n..] == b.payload.value;
    }
  }

  lemma {:induction false} SameFieldsAt(h: Digest, c: seq<State>, d: seq<State>, i: nat)
    requires forall x :: |h(x)| == DIGEST_SIZE
    requires Chain(h, c) && Chain(h, d) && NoCollision(h, c, d) && |c| == |d|
    requires c[|c| - 1].storedHash == d[|d| - 1].storedHash
    requires 0 < i < |c| && (i == 1 ==> |c[1].prevHash| == |d[1].prevHash|)
    ensures SameHashedFields(c[i], d[i])
  {
    DigestsAgreeDownTo(h, c, d, i);
    UpperStatesAreSelfHashed(h, c, i);
    UpperStatesAreSelfHashed(h, d, i);
    if i > 1 {
      PrevHashSize(h, c, i);
      PrevHashSize(h, d, i);
    }
    SameLengthSameFields(h, c[i], d[i]);
  }

  lemma {:induction false} NoCollisionInChains(h: Digest, states: seq<State>, target: State, c: seq<State>,
                                               states': seq<State>, target': State, d: seq<State>)
    requires NoCollision(h, states + [target], states' + [target'])
    requires ChainTo(h, states, target, c) && ChainTo(h, states', target', d)
    ensures NoCollision(h, c, d)
  {
    hide Linked, Collision;
    assert forall s :: s in c ==> s in states + [target];
    assert forall s :: s in d ==> s in states' + [target'];
  }

  /** Two histories that the sparse walk accepts for targets of one hash are one history. */
  lemma {:induction false} AcceptedHistoriesAgree(h: Digest, states: seq<State>, target: State, states': seq<State>,
                                                  target': State)
    requires forall x :: |h(x)| == DIGEST_SIZE
    requires SparseCheck(h, states, target).Ok? && SparseCheck(h, states', target').Ok?
    requires SameNumberSameHash(h, states) && SameNumberSameHash(h, states')
    requires NoCollision(h, states + [target], states' + [target'])
    requires target.number > 0 && target'.number > 0 && target.storedHash == target'.storedHash
    ensures exists c, d :: ChainTo(h, states, target, c) && ChainTo(h, states', target', d) && Agree(h, c, d)
  {
    hide Walk, Linked, NoCollision, Agree, SameNumberSameHash;
    var c := WalkIsSound(h, states, target, {target.number});
    var d := WalkIsSound(h, states', target', {target'.number});
    NoCollisionInChains(h, states, target, c, states', target', d);
    AcceptedChainsAgree(h, c, d);
  }

  /** Replacing the genesis state goes unnoticed exactly when the replacement reports the same hash. */
  lemma {:induction false} GenesisSubstitution(h: Digest, c: seq<State>, g: State)
    requires Chain(h, c) && |c| > 1 && g.number == 0
    ensures Chain(h, c[0 := g]) <==> HashOf(h, g) == HashOf(h, c[0])
  {
    var d := c[0 := g];
    UpperStatesAreSelfHashed(h, c, 1);
    LinkMeaning(h, g, c[1]);
    assert Chain(h, d) ==> Linked(h, d[1 - 1], d[1]);
    if Linked(h, g, c[1]) {
      forall i | 0 < i < |d| ensures Linked(h, d[i - 1], d[i]) {
        assert Linked(h, c[i - 1], c[i]);
      }
    }
  }

  /**
   The chain does not bind the contents of genesis: for every chain and any contents there is a
   genesis state that passes in place of the original, one that stores the hash the original reports.
   */
  lemma {:induction false} GenesisContentsAreFree(h: Digest, c: seq<State>, prevHash: Bytes, checkpoint: u64,
                                                  payload: Option<Bytes>)
    requires (forall x :: h(x) != []) && Chain(h, c) && |c| > 1
    ensures HashOf(h, c[0]).Some?
    ensures Chain(h, c[0 := State(0, HashOf(h, c[0]).value, prevHash, checkpoint, payload)])
  {
    UpperStatesAreSelfHashed(h, c, 1);
    GenesisSubstitution(h, c, State(0, HashOf(h, c[0]).value, prevHash, checkpoint, payload));
  }

  /**
   It binds them only between states that recompute their hash: then a replacement passes exactly
   when it hashes the same bytes or collides with the original.
   */
  lemma {:induction false} RecomputedGenesisIsBound(h: Digest, c: seq<State>, g: State)
    requires Chain(h, c) && |c| > 1 && g.number == 0
    requires RecomputesHash(h, c[0]) && RecomputesHash(h, g)
    ensures Chain(h, c[0 := g]) <==> Preimage(g) == Preimage(c[0]) || Collision(h, g, c[0])
  {
    GenesisSubstitution(h, c, g);
    UpperStatesAreSelfHashed(h, c, 1);
  }
}
