/** Pre-commitments with alternative forks, and the selection of one (dsm/src/commitments/precommit.rs). */
module ForkSelection {
  import opened Common
  import opened ForkBuffers

  type Signatures = map<Name, Bytes>

  datatype Params = Params(minSignatures: nat, minPositions: nat)

  const DEFAULT_PARAMS := Params(2, 32)

  datatype Proof = Proof(forkId: Name, forkHash: Bytes, selectedForkHash: Bytes, signatures: Signatures, timestamp: nat)

  datatype Fork = Fork(
    id: Name,
    hash: Bytes,
    fixedParams: map<Name, Bytes>,
    variableParams: set<Name>,
    positions: Bytes,
    signatures: Signatures,
    isSelected: bool,
    proof: Option<Proof>)

  datatype Commitment = Commitment(
    hash: Bytes,
    commitmentHash: Bytes,
    signatures: Signatures,
    forks: seq<Fork>,
    selected: Option<Name>,
    forward: Option<Bytes>,
    params: Params,
    fixedParameters: map<Name, Bytes>,
    variableParameters: seq<Name>)

  /** The wall clock as one call of `select_fork` reads it: its n-th reading may fail. */
  type Clock = nat -> Option<nat>

  datatype Outcome = Selected | NotFound | Insufficient | ClockFailed

  // ---------------------------------------------------------------- checking one fork

  function FirstByte(d: Bytes): byte {
    if d == [] then 0 else d[0]
  }

  /** `create_fork_positions`. */
  function Positions(h: Digest, hash: Bytes, count: nat): (r: Bytes)
    ensures |r| == count
  {
    if count == 0 then []
    else Positions(h, hash, count - 1) + [FirstByte(h(h(hash) + LittleEndian(count - 1, 8)))]
  }

  /** The signers whose signature on the fork equals the one on the commitment. */
  function Matching(c: Commitment, f: Fork): set<Name> {
    set s | s in f.signatures && s in c.signatures && f.signatures[s] == c.signatures[s]
  }

  ghost function Context(c: Commitment, f: Fork): Bytes {
    ForkBytes(c.hash, f.id, f.fixedParams, f.variableParams)
  }

  ghost predicate FullCheck(h: Digest, c: Commitment, f: Fork) {
    && f.signatures != map[]
    && |Matching(c, f)| >= c.params.minSignatures
    && f.positions == Positions(h, f.hash, c.params.minPositions)
    && h(Context(c, f)) == f.hash
  }

  /** `verify_fork_selection`, with its one-signature shortcut. */
  ghost predicate Passes(h: Digest, c: Commitment, f: Fork) {
    (c.params.minSignatures == 1 && f.signatures != map[]) || FullCheck(h, c, f)
  }

  // ---------------------------------------------------------------- selecting

  function IndexOf(forks: seq<Fork>, id: Name): (r: Option<nat>)
    ensures r.Some? ==> r.value < |forks| && forks[r.value].id == id
    ensures r.Some? ==> forall i :: 0 <= i < r.value ==> forks[i].id != id
    ensures r.None? ==> forall i :: 0 <= i < |forks| ==> forks[i].id != id
  {
    if forks == [] then None
    else if forks[0].id == id then Some(0)
    else match IndexOf(forks[1..], id)
         case None => None
         case Some(i) => Some(i + 1)
  }

  /** The ids of all other forks, in order and with repetitions. */
  function LoserIds(forks: seq<Fork>, winner: Name): seq<Name> {
    if forks == [] then []
    else if forks[0].id != winner then [forks[0].id] + LoserIds(forks[1..], winner)
    else LoserIds(forks[1..], winner)
  }

  function Defeated(f: Fork, winnerHash: Bytes, signatures: Signatures, now: nat): Fork {
    f.(signatures := map[], isSelected := false, proof := Some(Proof(f.id, f.hash, winnerHash, signatures, now)))
  }

  /** Invalidate the first fork called `loser`; both ids are known to exist. */
  function Invalidate(c: Commitment, loser: Name, winner: Name, now: nat): Commitment {
    match (IndexOf(c.forks, loser), IndexOf(c.forks, winner))
    case (Some(i), Some(w)) => c.(forks := c.forks[i := Defeated(c.forks[i], c.forks[w].hash, c.signatures, now)])
    case _ => c
  }

  function InvalidateAll(c: Commitment, losers: seq<Name>, winner: Name, clock: Clock, reading: nat)
    : (Commitment, Outcome)
    decreases |losers|
  {
    if losers == [] then (c, Selected)
    else
      match clock(reading)
      case None => (c, ClockFailed)
      case Some(now) => InvalidateAll(Invalidate(c, losers[0], winner, now), losers[1..], winner, clock, reading + 1)
  }

  function Mark(c: Commitment, w: nat): Commitment
    requires w < |c.forks|
  {
    c.(forks := c.forks[w := c.forks[w].(isSelected := true)], selected := Some(c.forks[w].id))
  }

  /** `select_fork`: the new commitment and how the call ended. */
  ghost function Select(h: Digest, c: Commitment, id: Name, clock: Clock): (Commitment, Outcome) {
    match IndexOf(c.forks, id)
    case None => (c, NotFound)
    case Some(w) =>
      if !Passes(h, c, c.forks[w]) then (c, Insufficient)
      else InvalidateAll(Mark(c, w), LoserIds(c.forks, id), id, clock, 0)
  }

  /** `is_fork_invalidated`. */
  predicate IsInvalidated(c: Commitment, id: Name) {
    match IndexOf(c.forks, id)
    case None => false
    case Some(i) =>
      var f := c.forks[i];
      && f.proof.Some?
      && |f.proof.value.signatures| >= c.params.minSignatures
      && f.proof.value.forkHash == f.hash
      && exists j :: 0 <= j < |c.forks| && c.forks[j].hash == f.proof.value.selectedForkHash
  }

  /** `verify` against a state with the given hash. */
  ghost predicate Verifies(h: Digest, c: Commitment, stateHash: Bytes) {
    && c.hash == stateHash
    && c.commitmentHash == h(c.hash)
    && (c.selected.Some? ==>
          var w := IndexOf(c.forks, c.selected.value);
          w.Some? && c.forks[w.value].isSelected && Passes(h, c, c.forks[w.value]))
  }

  // ---------------------------------------------------------------- the object

  class PreCommitment {
    var hash: Bytes
    var commitmentHash: Bytes
    var signatures: Signatures
    var forks: seq<Fork>
    var selectedForkId: Option<Name>
    var forwardCommitment: Option<Bytes>
    var securityParams: Params
    var fixedParameters: map<Name, Bytes>
    var variableParameters: seq<Name>

    function Abs(): Commitment
      reads this
    {
      Commitment(hash, commitmentHash, signatures, forks, selectedForkId, forwardCommitment, securityParams,
                 fixedParameters, variableParameters)
    }

    constructor (c: Commitment)
      ensures Abs() == c
    {
      hash, commitmentHash, signatures, forks := c.hash, c.commitmentHash, c.signatures, c.forks;
      selectedForkId, forwardCommitment, securityParams := c.selected, c.forward, c.params;
      fixedParameters, variableParameters := c.fixedParameters, c.variableParameters;
    }

    /** An existing signature is never replaced. */
    method AddSignature(signer: Name, signature: Bytes) returns (ok: bool)
      modifies this`signatures
      ensures ok <==> signer !in old(signatures)
      ensures signatures == if ok then old(signatures)[signer := signature] else old(signatures)
    {
      if signer in signatures {
        return false;
      }
      signatures := signatures[signer := signature];
      ok := true;
    }

    method VerifyForkSelection(h: Digest, fork: Fork) returns (ok: bool)
      ensures ok <==> Passes(h, Abs(), fork)
    {
      if securityParams.minSignatures == 1 && fork.signatures != map[] {
        return true;
      }
      if fork.signatures == map[] {
        return false;
      }
      var valid := 0;
      var todo := fork.signatures.Keys;
      ghost var counted: set<Name> := {};
      while todo != {}
        invariant todo <= fork.signatures.Keys && valid == |counted|
        invariant counted == set s | s in fork.signatures.Keys - todo && s in signatures &&
          fork.signatures[s] == signatures[s]
        decreases todo
      {
        var signer :| signer in todo;
        todo := todo - {signer};
        if signer !in signatures {
          continue;
        }
        if fork.signatures[signer] == signatures[signer] {
          valid := valid + 1;
          counted := counted + {signer};
        }
      }
      assert counted == Matching(Abs(), fork);
      if valid < securityParams.minSignatures {
        return false;
      }
      var expected := CreateForkPositions(h, fork.hash, securityParams.minPositions);
      if expected != fork.positions {
        return false;
      }
      var context := BuildBuffer(hash, fork.id, fork.fixedParams, fork.variableParams);
      ok := h(context) == fork.hash;
    }

    method SelectFork(h: Digest, id: Name, clock: Clock) returns (outcome: Outcome)
      modifies this`forks, this`selectedForkId
      ensures (Abs(), outcome) == Select(h, old(Abs()), id, clock)
    {
      var w := IndexOf(forks, id);
      if w.None? {
        return NotFound;
      }
      var valid := VerifyForkSelection(h, forks[w.value]);
      if !valid {
        return Insufficient;
      }
      var losers := LoserIds(forks, id);
      forks := forks[w.value := forks[w.value].(isSelected := true)];
      selectedForkId := Some(id);
      ghost var marked := Abs();
      assert marked == Mark(old(Abs()), w.value);
      for k := 0 to |losers|
        invariant InvalidateAll(marked, losers, id, clock, 0) == InvalidateAll(Abs(), losers[k..], id, clock, k)
        invariant unchanged(`hash) && unchanged(`signatures)
      {
        assert losers[k..][1..] == losers[k + 1..];
        var now := clock(k);
        if now.None? {
          return ClockFailed;
        }
        var i, win := IndexOf(forks, losers[k]), IndexOf(forks, id);
        if i.Some? && win.Some? {
          var proof := Proof(forks[i.value].id, forks[i.value].hash, forks[win.value].hash, signatures, now.value);
          forks := forks[i.value := forks[i.value].(signatures := map[], isSelected := false, proof := Some(proof))];
        }
      }
      outcome := Selected;
    }

    method IsForkInvalidated(id: Name) returns (r: bool)
      ensures r == IsInvalidated(Abs(), id)
    {
      var i := IndexOf(forks, id);
      if i.None? {
        return false;
      }
      var f := forks[i.value];
      if f.proof.None? || |f.proof.value.signatures| < securityParams.minSignatures {
        return false;
      }
      if f.proof.value.forkHash != f.hash {
        return false;
      }
      r := exists j :: 0 <= j < |forks| && forks[j].hash == f.proof.value.selectedForkHash;
    }
  }

  method CreateForkPositions(h: Digest, hash: Bytes, count: nat) returns (positions: Bytes)
    ensures positions == Positions(h, hash, count)
  {
    var base := h(hash);
    positions := [];
    for i := 0 to count
      invariant positions == Positions(h, hash, i)
    {
      positions := positions + [FirstByte(h(base + LittleEndian(i, 8)))];
    }
  }
}
