/** Finality of fork selection over whole runs, and what the checks of a fork amount to. */
module ForkTheorems {
  import opened Common
  import opened ForkBuffers
  import opened ForkSelection
  import opened ForkEffect

  ghost predicate DistinctIds(forks: seq<Fork>) {
    forall i, j :: 0 <= i < j < |forks| ==> forks[i].id != forks[j].id
  }

  // ---------------------------------------------------------------- the effect of one selection

  /** `g` is `f` after losing to a fork with hash `winnerHash`. */
  ghost predicate Defeat(f: Fork, g: Fork, winnerHash: Bytes, signatures: Signatures) {
    g.proof.Some? && g == Defeated(f, winnerHash, signatures, g.proof.value.timestamp)
  }

  /** After the loop over `losers`: the first fork of each listed id lost, all others are as before. */
  ghost predicate AllDefeated(c: Commitment, d: Commitment, losers: seq<Name>, winnerHash: Bytes)
    requires |c.forks| == |d.forks|
  {
    forall i :: 0 <= i < |c.forks| ==>
      if c.forks[i].id in losers && IndexOf(c.forks, c.forks[i].id) == Some(i)
      then Defeat(c.forks[i], d.forks[i], winnerHash, c.signatures)
      else d.forks[i] == c.forks[i]
  }

  /** Whatever happened, each fork is as before or lost, and the winner is as before. */
  ghost predicate SomeDefeated(c: Commitment, d: Commitment, winner: Name, winnerHash: Bytes)
    requires |c.forks| == |d.forks|
  {
    forall i :: 0 <= i < |c.forks| ==>
      d.forks[i] == c.forks[i] || (c.forks[i].id != winner && Defeat(c.forks[i], d.forks[i], winnerHash, c.signatures))
  }

  lemma {:induction false} AfterIsDefeat(c: Commitment, hash: Bytes, losers: seq<Name>, clock: Clock, from: nat,
                                         n: nat, i: nat)
    requires n <= |losers| && i < |c.forks| && forall j :: from <= j < from + n ==> clock(j).Some?
    ensures var g := ForkAfter(c, hash, losers, clock, from, n, i);
            && (g == c.forks[i] || (c.forks[i].id in losers && Defeat(c.forks[i], g, hash, c.signatures)))
            && (n == |losers| ==>
                  if c.forks[i].id in losers && IndexOf(c.forks, c.forks[i].id) == Some(i)
                  then Defeat(c.forks[i], g, hash, c.signatures)
                  else g == c.forks[i])
  {
    hide IndexOf;
  }

  lemma {:induction false} InvalidateAllEffect(c: Commitment, losers: seq<Name>, winner: Name, clock: Clock,
                                               reading: nat)
    requires IndexOf(c.forks, winner).Some? && winner !in losers
    requires forall x :: x in losers ==> IndexOf(c.forks, x).Some?
    ensures var (d, outcome) := InvalidateAll(c, losers, winner, clock, reading);
            var hash := c.forks[IndexOf(c.forks, winner).value].hash;
            && outcome in {Selected, ClockFailed}
            && d == c.(forks := d.forks) && SameIds(c.forks, d.forks)
            && SomeDefeated(c, d, winner, hash)
            && (outcome == Selected ==> AllDefeated(c, d, losers, hash))
  {
    InvalidateAllExact(c, losers, winner, clock, reading);
    hide InvalidateAll, IndexOf, ForkAfter, Defeat, GoodReadings;
    var hash := c.forks[IndexOf(c.forks, winner).value].hash;
    var n := GoodReadings(clock, reading, |losers|);
    var d := InvalidateAll(c, losers, winner, clock, reading).0;
    forall i | 0 <= i < |c.forks| ensures d.forks[i].id == c.forks[i].id {
      AfterIsDefeat(c, hash, losers, clock, reading, n, i);
      DefeatKeepsId(c.forks[i], d.forks[i], hash, c.signatures);
    }
    forall i | 0 <= i < |c.forks|
      ensures d.forks[i] == c.forks[i] || (c.forks[i].id != winner &&
        Defeat(c.forks[i], d.forks[i], hash, c.signatures))
    {
      AfterIsDefeat(c, hash, losers, clock, reading, n, i);
    }
    if n == |losers| {
      forall i | 0 <= i < |c.forks|
        ensures if c.forks[i].id in losers && IndexOf(c.forks, c.forks[i].id) == Some(i)
                then Defeat(c.forks[i], d.forks[i], hash, c.signatures)
                else d.forks[i] == c.forks[i]
      {
        AfterIsDefeat(c, hash, losers, clock, reading, n, i);
      }
    }
  }

  lemma {:induction false} DefeatKeepsId(f: Fork, g: Fork, hash: Bytes, signatures: Signatures)
    ensures Defeat(f, g, hash, signatures) ==> g.id == f.id && g.hash == f.hash
  {
  }

  /** What a successful selection does to each fork, for any list of forks, repeated ids included. */
  lemma {:induction false} SelectEffect(h: Digest, c: Commitment, id: Name, clock: Clock)
    requires Select(h, c, id, clock).1 == Selected
    ensures IndexOf(c.forks, id).Some?
    ensures var d := Select(h, c, id, clock).0;
            var w := IndexOf(c.forks, id).value;
            && Passes(h, c, c.forks[w])
            && d == c.(forks := d.forks, selected := Some(id)) && SameIds(c.forks, d.forks)
            && forall i :: 0 <= i < |c.forks| ==>
                 if i == w then d.forks[i] == c.forks[i].(isSelected := true)
                 else if c.forks[i].id != id && IndexOf(c.forks, c.forks[i].id) == Some(i)
                 then Defeat(c.forks[i], d.forks[i], c.forks[w].hash, c.signatures)
                 else d.forks[i] == c.forks[i]
  {
    var w := IndexOf(c.forks, id).value;
    var marked := Mark(c, w);
    LosersAreTheOthers(c.forks, id);
    forall x ensures IndexOf(marked.forks, x) == IndexOf(c.forks, x) {
      SameIdsSameIndex(c.forks, marked.forks, x);
    }
    InvalidateAllEffect(marked, LoserIds(c.forks, id), id, clock, 0);
  }

  // ---------------------------------------------------------------- finality

  /** The fork is cleared and carries a proof of its own and the winner's hash. */
  ghost predicate Lost(f: Fork, winnerHash: Bytes) {
    && !f.isSelected && f.signatures == map[]
    && f.proof.Some?
    && f.proof.value.forkId == f.id && f.proof.value.forkHash == f.hash && f.proof.value.selectedForkHash == winnerHash
  }

  /** Exactly one fork is marked, and every other one is cleared and carries a proof naming both hashes. */
  ghost predicate FinalFor(c: Commitment, winner: Name) {
    && c.selected == Some(winner)
    && IndexOf(c.forks, winner).Some?
    && var w := IndexOf(c.forks, winner).value;
       && c.forks[w].isSelected
       && forall i :: 0 <= i < |c.forks| && i != w ==> Lost(c.forks[i], c.forks[w].hash)
  }

  lemma {:induction false} DistinctFirst(forks: seq<Fork>, i: nat)
    requires DistinctIds(forks) && i < |forks|
    ensures IndexOf(forks, forks[i].id) == Some(i)
  {
  }

  lemma {:induction false} SelectionIsFinal(h: Digest, c: Commitment, id: Name, clock: Clock)
    requires DistinctIds(c.forks) && Select(h, c, id, clock).1 == Selected
    ensures FinalFor(Select(h, c, id, clock).0, id)
  {
    hide Select, IndexOf, Defeat, Passes;
    SelectEffect(h, c, id, clock);
    var d := Select(h, c, id, clock).0;
    var w := IndexOf(c.forks, id).value;
    SameIdsSameIndex(c.forks, d.forks, id);
    forall i | 0 <= i < |c.forks| && i != w ensures Lost(d.forks[i], d.forks[w].hash) {
      DistinctFirst(c.forks, i);
      DefeatMeansLost(c.forks[i], d.forks[i], c.forks[w].hash, c.signatures);
    }
  }

  lemma {:induction false} DefeatMeansLost(f: Fork, g: Fork, hash: Bytes, signatures: Signatures)
    requires Defeat(f, g, hash, signatures)
    ensures Lost(g, hash)
  {
  }

  datatype Operation =
    | AddSignature(signer: Name, signature: Bytes)
    | SelectFork(id: Name, clock: Clock)
    | AddForward(commitment: Bytes)
    | WithParams(params: Params)

  ghost function Apply(h: Digest, c: Commitment, op: Operation): Commitment {
    match op
    case AddSignature(signer, sig) => if signer in c.signatures then c
      else c.(signatures := c.signatures[signer := sig])
    case SelectFork(id, clock) => Select(h, c, id, clock).0
    case AddForward(f) => c.(forward := Some(f))
    case WithParams(p) => c.(params := p)
  }

  ghost function Run(h: Digest, c: Commitment, ops: seq<Operation>): Commitment
    decreases |ops|
  {
    if ops == [] then c else Run(h, Apply(h, c, ops[0]), ops[1..])
  }

  /** A cleared fork never passes, whatever the parameters. */
  lemma {:induction false} LosersCannotBeSelected(h: Digest, c: Commitment, winner: Name, id: Name, clock: Clock)
    requires FinalFor(c, winner) && id != winner
    ensures Select(h, c, id, clock).0 == c
    ensures Select(h, c, id, clock).1 in {NotFound, Insufficient}
  {
  }

  /** Selecting the winner again, even with a failing clock, changes only the losers' proofs. */
  lemma {:induction false} ReselectionStaysFinal(h: Digest, c: Commitment, winner: Name, clock: Clock)
    requires FinalFor(c, winner)
    ensures FinalFor(Select(h, c, winner, clock).0, winner)
    ensures var d := Select(h, c, winner, clock).0;
            var w := IndexOf(c.forks, winner).value;
            d == c.(forks := d.forks) && SameIds(c.forks, d.forks) && d.forks[w] == c.forks[w]
  {
    var w := IndexOf(c.forks, winner).value;
    if Passes(h, c, c.forks[w]) {
      assert Mark(c, w).forks == c.forks;
      assert Mark(c, w) == c;
      LosersAreTheOthers(c.forks, winner);
      InvalidateAllEffect(c, LoserIds(c.forks, winner), winner, clock, 0);
      var d := Select(h, c, winner, clock).0;
      SameIdsSameIndex(c.forks, d.forks, winner);
    }
  }

  lemma {:induction false} OperationKeepsFinality(h: Digest, c: Commitment, winner: Name, op: Operation)
    requires FinalFor(c, winner)
    ensures FinalFor(Apply(h, c, op), winner)
    ensures SameIds(c.forks, Apply(h, c, op).forks)
  {
    if op.SelectFork? {
      if op.id == winner {
        ReselectionStaysFinal(h, c, winner, op.clock);
      } else {
        LosersCannotBeSelected(h, c, winner, op.id, op.clock);
      }
    }
  }

  /**
   Finality over whole runs: once a fork was selected successfully, whatever operations follow, the
   commitment stays final for it and no other fork can be selected any more.
   */
  lemma {:induction false} EveryRunKeepsFinality(h: Digest, c: Commitment, winner: Name, ops: seq<Operation>)
    requires FinalFor(c, winner)
    ensures FinalFor(Run(h, c, ops), winner)
    ensures forall id: Name, clock: Clock :: id != winner ==> Select(h, Run(h, c, ops), id, clock).1 != Selected
    decreases |ops|
  {
    if ops == [] {
      forall id: Name, clock: Clock | id != winner ensures Select(h, c, id, clock).1 != Selected {
        LosersCannotBeSelected(h, c, winner, id, clock);
      }
    } else {
      OperationKeepsFinality(h, c, winner, ops[0]);
      hide Apply, FinalFor, Select;
      EveryRunKeepsFinality(h, Apply(h, c, ops[0]), winner, ops[1..]);
    }
  }

  // ---------------------------------------------------------------- invalidation proofs

  /** The matched signers are signers of the commitment, so the full check needs enough of those. */
  lemma {:induction false} MatchedSignersInject(c: Commitment, f: Fork)
    ensures |Matching(c, f)| <= |c.signatures|
  {
    SubsetIsSmaller(Matching(c, f), c.signatures.Keys);
  }

  /**
   After a selection every losing fork counts as invalidated exactly when the commitment itself
   carries the required number of signatures; the full check guarantees that, the one-signature
   shortcut does not.
   */
  lemma {:induction false} LosersInvalidatedExactlyWhen(h: Digest, c: Commitment, id: Name, clock: Clock, i: nat)
    requires DistinctIds(c.forks) && Select(h, c, id, clock).1 == Selected
    requires i < |c.forks| && c.forks[i].id != id
    ensures IsInvalidated(Select(h, c, id, clock).0, c.forks[i].id) <==> |c.signatures| >= c.params.minSignatures
    ensures FullCheck(h, c, c.forks[IndexOf(c.forks, id).value]) ==>
              IsInvalidated(Select(h, c, id, clock).0, c.forks[i].id)
  {
    hide Select, Positions, Context;
    SelectEffect(h, c, id, clock);
    var d := Select(h, c, id, clock).0;
    var w := IndexOf(c.forks, id).value;
    DistinctFirst(c.forks, i);
    SameIdsSameIndex(c.forks, d.forks, c.forks[i].id);
    assert d.forks[w].hash == c.forks[w].hash;
    MatchedSignersInject(c, c.forks[w]);
  }

  // ---------------------------------------------------------------- passing forks keep passing

  ghost predicate KeepsParams(ops: seq<Operation>) {
    forall i :: 0 <= i < |ops| ==> !ops[i].WithParams?
  }

  lemma {:induction false} MatchingGrows(c: Commitment, f: Fork, signer: Name, sig: Bytes)
    requires signer !in c.signatures
    ensures Matching(c, f) <= Matching(c.(signatures := c.signatures[signer := sig]), f)
    ensures |Matching(c, f)| <= |Matching(c.(signatures := c.signatures[signer := sig]), f)|
  {
    SubsetIsSmaller(Matching(c, f), Matching(c.(signatures := c.signatures[signer := sig]), f));
  }

  /** A final commitment whose winner passes stays so under every operation but a change of parameters. */
  lemma {:induction false} WinnerKeepsPassing(h: Digest, c: Commitment, winner: Name, op: Operation)
    requires FinalFor(c, winner) && Passes(h, c, c.forks[IndexOf(c.forks, winner).value]) && !op.WithParams?
    ensures var d := Apply(h, c, op);
            && FinalFor(d, winner) && Passes(h, d, d.forks[IndexOf(d.forks, winner).value])
            && d.hash == c.hash && d.commitmentHash == c.commitmentHash
  {
    var w := IndexOf(c.forks, winner).value;
    OperationKeepsFinality(h, c, winner, op);
    SameIdsSameIndex(c.forks, Apply(h, c, op).forks, winner);
    match op
    case AddSignature(signer, sig) =>
      if signer !in c.signatures {
        MatchingGrows(c, c.forks[w], signer, sig);
      }
    case SelectFork(id, clock) =>
      if id == winner {
        ReselectionStaysFinal(h, c, winner, clock);
        hide Select;
      } else {
        LosersCannotBeSelected(h, c, winner, id, clock);
      }
    case AddForward(f) =>
  }

  /**
   After a selection, `verify` keeps accepting exactly the state whose hash was committed to, over
   every later run, provided the commitment hash is the digest of that hash.
   */
  lemma {:induction false} SelectedCommitmentKeepsVerifying(h: Digest, c: Commitment, winner: Name,
                                                            ops: seq<Operation>, stateHash: Bytes)
    requires FinalFor(c, winner) && Passes(h, c, c.forks[IndexOf(c.forks, winner).value]) && KeepsParams(ops)
    ensures Verifies(h, Run(h, c, ops), stateHash) <==> stateHash == c.hash && c.commitmentHash == h(c.hash)
    decreases |ops|
  {
    hide Passes;
    if ops != [] {
      WinnerKeepsPassing(h, c, winner, ops[0]);
      hide Apply, FinalFor;
      SelectedCommitmentKeepsVerifying(h, Apply(h, c, ops[0]), winner, ops[1..], stateHash);
    }
  }

  /** No operation touches the two hashes, so what `verify` can accept is fixed when the commitment is made. */
  lemma {:induction false} VerifiesOnlyItsOwnHash(h: Digest, c: Commitment, ops: seq<Operation>, stateHash: Bytes)
    requires Verifies(h, Run(h, c, ops), stateHash)
    ensures stateHash == c.hash && c.commitmentHash == h(c.hash)
    decreases |ops|
  {
    hide Passes;
    if ops != [] {
      ApplyKeepsHashes(h, c, ops[0]);
      hide Apply, Verifies;
      VerifiesOnlyItsOwnHash(h, Apply(h, c, ops[0]), ops[1..], stateHash);
    }
  }

  lemma {:induction false} ApplyKeepsHashes(h: Digest, c: Commitment, op: Operation)
    ensures Apply(h, c, op).hash == c.hash && Apply(h, c, op).commitmentHash == c.commitmentHash
  {
    if op.SelectFork? && IndexOf(c.forks, op.id).Some? {
      var w := IndexOf(c.forks, op.id).value;
      LosersAreTheOthers(c.forks, op.id);
      forall x ensures IndexOf(Mark(c, w).forks, x) == IndexOf(c.forks, x) {
        SameIdsSameIndex(c.forks, Mark(c, w).forks, x);
      }
      InvalidateAllEffect(Mark(c, w), LoserIds(c.forks, op.id), op.id, op.clock, 0);
    }
  }
}
