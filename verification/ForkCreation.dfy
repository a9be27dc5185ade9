/** How forked and plain pre-commitments are made (dsm/src/commitments/precommit.rs). */
module ForkCreation {
  import opened Common
  import opened ForkBuffers
  import opened ForkSelection

  datatype Path = Path(id: Name, fixedParams: map<Name, Bytes>, variableParams: set<Name>)

  ghost function NewFork(h: Digest, base: Bytes, path: Path, params: Params): Fork {
    var bytes := ForkBytes(base, path.id, path.fixedParams, path.variableParams);
    var positions := Positions(h, bytes, params.minPositions);
    Fork(path.id, h(bytes), path.fixedParams, path.variableParams, positions, map[], false, None)
  }

  /** A new fork carries its path, is open, and cannot pass before it is signed, whatever the parameters. */
  lemma {:induction false} NewForkIsOpen(h: Digest, c: Commitment, path: Path, params: Params)
    ensures var f := NewFork(h, c.hash, path, params);
            && f.id == path.id && f.fixedParams == path.fixedParams && f.variableParams == path.variableParams
            && !f.isSelected && f.proof.None? && !Passes(h, c, f)
  {
    hide Positions, ForkBytes;
  }

  datatype NewError = NoForkPath

  /** Some path fixes the parameter, and `value` is what the last such path says. */
  ghost predicate LastFixed(paths: seq<Path>, k: Name, value: Bytes) {
    exists i :: 0 <= i < |paths| && k in paths[i].fixedParams && paths[i].fixedParams[k] == value &&
                forall j :: i < j < |paths| ==> k !in paths[j].fixedParams
  }

  /** The parameters of all paths together: the last path wins, and names are listed once. */
  ghost predicate Aggregates(paths: seq<Path>, fixedParams: map<Name, Bytes>, variableParams: seq<Name>) {
    && (forall k :: k in fixedParams ==> LastFixed(paths, k, fixedParams[k]))
    && (forall i, k :: 0 <= i < |paths| && k in paths[i].fixedParams ==> k in fixedParams)
    && NoRepeats(variableParams)
    && (forall x :: x in variableParams <==> exists i :: 0 <= i < |paths| && x in paths[i].variableParams)
  }

  /** Add the names that are not yet listed, in whatever order the set yields them. */
  method AddNames(listed: seq<Name>, names: set<Name>) returns (r: seq<Name>)
    requires NoRepeats(listed)
    ensures NoRepeats(r)
    ensures forall x :: x in r <==> x in listed || x in names
  {
    r := listed;
    var todo := names;
    while todo != {}
      invariant todo <= names
      invariant NoRepeats(r)
      invariant forall x :: x in r <==> x in listed || x in names - todo
      decreases todo
    {
      var x :| x in todo;
      todo := todo - {x};
      if x !in r {
        r := r + [x];
      }
    }
  }

  lemma {:induction false} AggregatesStep(paths: seq<Path>, i: nat, fixedParams: map<Name, Bytes>, before: seq<Name>,
                                          after: seq<Name>)
    requires i < |paths| && Aggregates(paths[..i], fixedParams, before)
    requires NoRepeats(after)
    requires forall x :: x in after <==> x in before || x in paths[i].variableParams
    ensures Aggregates(paths[..i + 1], fixedParams + paths[i].fixedParams, after)
  {
    var part, now := paths[..i], paths[..i + 1];
    var merged := fixedParams + paths[i].fixedParams;
    assert forall j :: 0 <= j < i ==> now[j] == part[j];
    assert now[i] == paths[i];
    forall k | k in merged ensures LastFixed(now, k, merged[k]) {
      if k !in paths[i].fixedParams {
        assert LastFixed(part, k, fixedParams[k]);
        var j :| 0 <= j < |part| && k in part[j].fixedParams && part[j].fixedParams[k] == fixedParams[k] &&
          forall m :: j < m < |part| ==> k !in part[m].fixedParams;
        assert now[j] == part[j];
      }
    }
    forall x | x in after ensures exists j :: 0 <= j < |now| && x in now[j].variableParams {
      if x in before {
        var j :| 0 <= j < |part| && x in part[j].variableParams;
        assert x in now[j].variableParams;
      } else {
        assert x in now[i].variableParams;
      }
    }
  }

  /** The forks of `new_forked`, one per path. */
  method BuildForks(h: Digest, base: Bytes, paths: seq<Path>, params: Params) returns (forks: seq<Fork>)
    ensures |forks| == |paths| && forall i :: 0 <= i < |paths| ==> forks[i] == NewFork(h, base, paths[i], params)
  {
    forks := [];
    for i := 0 to |paths|
      invariant |forks| == i
      invariant forall k :: 0 <= k < i ==> forks[k] == NewFork(h, base, paths[k], params)
    {
      var path := paths[i];
      var bytes := BuildBuffer(base, path.id, path.fixedParams, path.variableParams);
      var positions := CreateForkPositions(h, bytes, params.minPositions);
      forks := forks + [Fork(path.id, h(bytes), path.fixedParams, path.variableParams, positions, map[], false, None)];
    }
  }

  /** `new_forked`. */
  method NewForked(h: Digest, base: Bytes, paths: seq<Path>,
                   chosen: Option<Params>) returns (r: Result<Commitment, NewError>)
    ensures r.Err? <==> paths == []
    ensures r.Ok? ==>
              var params := if chosen.Some? then chosen.value else DEFAULT_PARAMS;
              && r.value.hash == base && r.value.commitmentHash == h(base) && r.value.params == params
              && r.value.signatures == map[] && r.value.selected == None && r.value.forward == None
              && |r.value.forks| == |paths|
              && (forall i :: 0 <= i < |paths| ==> r.value.forks[i] == NewFork(h, base, paths[i], params))
              && Aggregates(paths, r.value.fixedParameters, r.value.variableParameters)
  {
    if paths == [] {
      return Err(NoForkPath);
    }
    var params := if chosen.Some? then chosen.value else DEFAULT_PARAMS;
    var forks := BuildForks(h, base, paths, params);
    var fixedParams: map<Name, Bytes>, variableParams: seq<Name> := map[], [];
    assert Aggregates(paths[..0], fixedParams, variableParams);
    for i := 0 to |paths|
      invariant Aggregates(paths[..i], fixedParams, variableParams)
    {
      var names := AddNames(variableParams, paths[i].variableParams);
      AggregatesStep(paths, i, fixedParams, variableParams, names);
      fixedParams, variableParams := fixedParams + paths[i].fixedParams, names;
    }
    assert paths[..|paths|] == paths;
    r := Ok(Commitment(base, h(base), map[], forks, None, None, params, fixedParams, variableParams));
  }

  /**
   The hash-context check never rejects a fork that `new_forked` built. What decides is the
   signatures, and for more than one required signature also whether the positions derived from
   the raw bytes agree with those derived from their hash.
   */
  lemma {:induction false} NewForkPassesExactlyWhen(h: Digest, c: Commitment, path: Path, signatures: Signatures)
    ensures var f := NewFork(h, c.hash, path, c.params).(signatures := signatures);
            && h(Context(c, f)) == f.hash
            && (Passes(h, c, f) <==>
                  && signatures != map[]
                  && (c.params.minSignatures == 1
                      || (&& |Matching(c, f)| >= c.params.minSignatures
                          && Positions(h, Context(c, f), c.params.minPositions) ==
                            Positions(h, f.hash, c.params.minPositions))))
  {
    hide Positions, ForkBytes;
  }

  /** The bytes of "commitment_hash". */
  const HASH_SUFFIX: Bytes := [99, 111, 109, 109, 105, 116, 109, 101, 110, 116, 95, 104, 97, 115, 104]

  /** `new_with_signatures`. */
  function NewWithSignatures(h: Digest, hash: Bytes, signatures: Signatures): Commitment {
    Commitment(hash, h(hash + HASH_SUFFIX), signatures, [], None, None, DEFAULT_PARAMS, map[], [])
  }

  /** `verify` expects another digest than `new_with_signatures` writes: it accepts only on a collision. */
  lemma {:induction false} WithSignaturesVerifiesExactlyWhen(h: Digest, hash: Bytes, signatures: Signatures,
                                                             stateHash: Bytes)
    ensures Verifies(h, NewWithSignatures(h, hash, signatures), stateHash) <==>
            stateHash == hash && h(hash + HASH_SUFFIX) == h(hash)
  {
  }
}
