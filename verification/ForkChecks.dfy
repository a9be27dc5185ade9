/** What the checks of forks and commitments mean, however they are computed (dsm/src/commitments/precommit.rs). */
module ForkChecks {
  import opened Common
  import opened ForkBuffers
  import opened ForkSelection
  import opened ForkEffect
  import opened ForkTheorems

  // ---------------------------------------------------------------- verify_fork_selection

  /** Signers whose signature bytes on the fork and on the commitment are the same. */
  ghost predicate Agreeing(c: Commitment, f: Fork, signers: set<Name>) {
    forall s :: s in signers ==> s in f.signatures && s in c.signatures && f.signatures[s] == c.signatures[s]
  }

  /**
   The full check holds exactly when the fork is signed, enough signers put the same signature on
   the fork and on the commitment, the positions are those of the fork's hash, and that hash is the
   digest of the fork's own contents under the commitment.
   */
  lemma {:induction false} FullCheckExactlyWhen(h: Digest, c: Commitment, f: Fork)
    ensures FullCheck(h, c, f) <==>
            && |f.signatures| > 0
            && (exists signers :: Agreeing(c, f, signers) && |signers| >= c.params.minSignatures)
            && f.positions == Positions(h, f.hash, c.params.minPositions)
            && f.hash == h(ForkBytes(c.hash, f.id, f.fixedParams, f.variableParams))
  {
    hide Positions, ForkBytes;
    assert Agreeing(c, f, Matching(c, f));
    if signers :| Agreeing(c, f, signers) && |signers| >= c.params.minSignatures {
      SubsetIsSmaller(signers, Matching(c, f));
    }
  }

  /** Signatures that differ in their bytes do not count: with too few equal ones the fork does not pass. */
  lemma {:induction false} DisagreementIsRejected(h: Digest, c: Commitment, f: Fork, bad: set<Name>)
    requires c.params.minSignatures > 1 && bad <= f.signatures.Keys
    requires forall s :: s in bad ==> s !in c.signatures || f.signatures[s] != c.signatures[s]
    requires |f.signatures| - |bad| < c.params.minSignatures
    ensures !Passes(h, c, f)
  {
    hide Positions, Context;
    assert Matching(c, f) <= f.signatures.Keys - bad;
    SubsetIsSmaller(Matching(c, f), f.signatures.Keys - bad);
    assert f.signatures.Keys == (f.signatures.Keys - bad) + bad;
  }

  /** The i-th position is the first byte of the digest of the hashed hash followed by the index. */
  lemma {:induction false} PositionAt(h: Digest, hash: Bytes, count: nat, i: nat)
    requires i < count
    ensures Positions(h, hash, count)[i] == FirstByte(h(h(hash) + LittleEndian(i, 8)))
  {
    if i < count - 1 {
      PositionAt(h, hash, count - 1, i);
    }
  }

  /** More positions extend fewer ones. */
  lemma {:induction false} PositionsExtend(h: Digest, hash: Bytes, few: nat, many: nat)
    requires few <= many
    ensures Positions(h, hash, few) == Positions(h, hash, many)[..few]
  {
    forall i | 0 <= i < few ensures Positions(h, hash, few)[i] == Positions(h, hash, many)[i] {
      PositionAt(h, hash, few, i);
      PositionAt(h, hash, many, i);
    }
  }

  // ---------------------------------------------------------------- is_fork_invalidated

  /** The i-th fork carries a proof with enough signatures, of its own hash, against a fork that is there. */
  ghost predicate ProvenLost(c: Commitment, i: nat)
    requires i < |c.forks|
  {
    && c.forks[i].proof.Some?
    && var proof := c.forks[i].proof.value;
       && |proof.signatures| >= c.params.minSignatures
       && proof.forkHash == c.forks[i].hash
       && exists j :: 0 <= j < |c.forks| && c.forks[j].hash == proof.selectedForkHash
  }

  /** Only the first fork of an id is asked, and all four tests decide. */
  lemma {:induction false} InvalidatedExactlyWhen(c: Commitment, id: Name)
    ensures IsInvalidated(c, id) <==>
            exists i: nat :: && i < |c.forks| && c.forks[i].id == id
                             && (forall j :: 0 <= j < i ==> c.forks[j].id != id)
                             && ProvenLost(c, i)
  {
    hide IndexOf;
    var i := IndexOf(c.forks, id);
    if IsInvalidated(c, id) {
      assert ProvenLost(c, i.value);
    }
  }

  // ---------------------------------------------------------------- verify

  /** With a selected fork, `verify` needs that fork to exist, to be marked and to pass now. */
  lemma {:induction false} VerifiesExactlyWhen(h: Digest, c: Commitment, stateHash: Bytes)
    ensures Verifies(h, c, stateHash) <==>
            && stateHash == c.hash && c.commitmentHash == h(stateHash)
            && (c.selected == None ||
                exists i: nat :: && i < |c.forks| && c.selected == Some(c.forks[i].id)
                                 && (forall j :: 0 <= j < i ==> c.forks[j].id != c.forks[i].id)
                                 && c.forks[i].isSelected && Passes(h, c, c.forks[i]))
  {
    hide Passes, IndexOf;
    if c.selected.Some? {
      var w := IndexOf(c.forks, c.selected.value);
      assert Verifies(h, c, stateHash) ==> w.Some? && c.selected == Some(c.forks[w.value].id);
    }
  }

  /** A selection does not survive new parameters that ask for more signatures than there are. */
  lemma {:induction false} RaisedThresholdRejects(h: Digest, c: Commitment, params: Params, stateHash: Bytes)
    requires c.selected.Some? && params.minSignatures > 1 && params.minSignatures > |c.signatures|
    ensures !Verifies(h, Apply(h, c, WithParams(params)), stateHash)
  {
    hide Positions, Context, IndexOf;
    var d := Apply(h, c, WithParams(params));
    var w := IndexOf(d.forks, d.selected.value);
    if w.Some? {
      MatchedSignersInject(d, d.forks[w.value]);
    }
  }

  /** Under new parameters a final commitment verifies exactly when its winner passes under them. */
  lemma {:induction false} NewParamsVerifyExactlyWhen(h: Digest, c: Commitment, winner: Name, params: Params)
    requires FinalFor(c, winner) && c.commitmentHash == h(c.hash)
    ensures var d := Apply(h, c, WithParams(params));
            Verifies(h, d, c.hash) <==> Passes(h, d, c.forks[IndexOf(c.forks, winner).value])
  {
    hide Passes, IndexOf;
  }
}
