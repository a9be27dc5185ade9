/**
 How `select_fork` ends and what it leaves behind, told from the commitment and the clock alone
 (dsm/src/commitments/precommit.rs).
 */
module ForkAtomicity {
  import opened Common
  import opened ForkBuffers
  import opened ForkSelection
  import opened ForkEffect
  import opened ForkTheorems

  /** The fork already looks as this invalidation would leave it. */
  predicate Settled(f: Fork, winnerHash: Bytes, signatures: Signatures, now: nat) {
    && f.signatures == map[] && !f.isSelected
    && f.proof == Some(Proof(f.id, f.hash, winnerHash, signatures, now))
  }

  /**
   The call would write nothing new: the fork is already the selected one, and every loser reached
   before the clock fails carries the very proof it would get.
   */
  ghost predicate NothingToDo(c: Commitment, w: nat, clock: Clock)
    requires w < |c.forks|
  {
    var losers := LoserIds(c.forks, c.forks[w].id);
    var n := GoodReadings(clock, 0, |losers|);
    && c.selected == Some(c.forks[w].id) && c.forks[w].isSelected
    && forall i :: 0 <= i < |c.forks| ==>
         match DefeatTime(c.forks, losers, n, i)
         case None => true
         case Some(j) => Settled(c.forks[i], c.forks[w].hash, c.signatures, clock(j).value)
  }

  /** Marking the winner first does not disturb the losers. */
  lemma {:induction false} ForkAfterMark(c: Commitment, w: nat, clock: Clock, n: nat, i: nat)
    requires w < |c.forks| && i < |c.forks| && IndexOf(c.forks, c.forks[w].id) == Some(w)
    requires n <= |LoserIds(c.forks, c.forks[w].id)| && forall j :: 0 <= j < n ==> clock(j).Some?
    ensures var losers := LoserIds(c.forks, c.forks[w].id);
            && (forall x :: IndexOf(Mark(c, w).forks, x) == IndexOf(c.forks, x))
            && (i != w ==> ForkAfter(Mark(c, w), c.forks[w].hash, losers, clock, 0, n, i) ==
                           ForkAfter(c, c.forks[w].hash, losers, clock, 0, n, i))
            && DefeatTime(c.forks, losers, n, w) == None
            && ForkAfter(Mark(c, w), c.forks[w].hash, losers, clock, 0, n, w) == Mark(c, w).forks[w]
  {
    LosersAreTheOthers(c.forks, c.forks[w].id);
    forall x ensures IndexOf(Mark(c, w).forks, x) == IndexOf(c.forks, x) {
      SameIdsSameIndex(c.forks, Mark(c, w).forks, x);
    }
    hide IndexOf, LoserIds;
  }

  /** How the call ends: the clock matters only for a fork that passes, and only as often as there are losers. */
  lemma {:induction false} OutcomeExactlyWhen(h: Digest, c: Commitment, id: Name, clock: Clock)
    ensures var w := IndexOf(c.forks, id);
            var outcome := Select(h, c, id, clock).1;
            && (outcome == NotFound <==> w.None?)
            && (outcome == Insufficient <==> w.Some? && !Passes(h, c, c.forks[w.value]))
            && (outcome == ClockFailed <==>
                  && w.Some? && Passes(h, c, c.forks[w.value])
                  && exists j :: 0 <= j < |LoserIds(c.forks, id)| && clock(j).None?)
  {
    var w := IndexOf(c.forks, id);
    if w.Some? && Passes(h, c, c.forks[w.value]) {
      SelectExact(h, c, id, clock);
    }
  }

  /** The commitment after a selection that passes its check. */
  lemma {:induction false} SelectExact(h: Digest, c: Commitment, id: Name, clock: Clock)
    requires IndexOf(c.forks, id).Some? && Passes(h, c, c.forks[IndexOf(c.forks, id).value])
    ensures var w := IndexOf(c.forks, id).value;
            var losers := LoserIds(c.forks, id);
            var n := GoodReadings(clock, 0, |losers|);
            var (d, outcome) := Select(h, c, id, clock);
            && outcome == (if n == |losers| then Selected else ClockFailed)
            && d == c.(forks := d.forks, selected := Some(id)) && |d.forks| == |c.forks|
            && d.forks[w] == c.forks[w].(isSelected := true)
            && DefeatTime(c.forks, losers, n, w) == None
            && forall i :: 0 <= i < |c.forks| && i != w ==>
                 d.forks[i] == ForkAfter(c, c.forks[w].hash, losers, clock, 0, n, i)
  {
    var w := IndexOf(c.forks, id).value;
    var losers := LoserIds(c.forks, id);
    var n := GoodReadings(clock, 0, |losers|);
    var marked := Mark(c, w);
    LosersAreTheOthers(c.forks, id);
    ForkAfterMark(c, w, clock, n, w);
    InvalidateAllExact(marked, losers, id, clock, 0);
    forall i | 0 <= i < |c.forks| && i != w
      ensures ForkAfter(marked, c.forks[w].hash, losers, clock, 0, n, i) ==
        ForkAfter(c, c.forks[w].hash, losers, clock, 0, n, i)
    {
      ForkAfterMark(c, w, clock, n, i);
    }
    hide IndexOf, LoserIds, ForkAfter, Passes, InvalidateAll;
  }

  /**
   A selection leaves the commitment unchanged exactly when the fork is unknown, fails its check, or
   there is nothing to do. A clock failure is therefore not atomic: it keeps the mark of the winner
   and the losers reached so far, unless all that was there already.
   */
  lemma {:induction false} UnchangedExactlyWhen(h: Digest, c: Commitment, id: Name, clock: Clock)
    ensures var w := IndexOf(c.forks, id);
            Select(h, c, id, clock).0 == c <==>
            w.None? || !Passes(h, c, c.forks[w.value]) || NothingToDo(c, w.value, clock)
  {
    var w := IndexOf(c.forks, id);
    if w.Some? && Passes(h, c, c.forks[w.value]) {
      SelectExact(h, c, id, clock);
      UnchangedForks(c, w.value, clock, Select(h, c, id, clock).0);
    }
  }

  lemma {:induction false} UnchangedForks(c: Commitment, w: nat, clock: Clock, d: Commitment)
    requires w < |c.forks|
    requires var losers := LoserIds(c.forks, c.forks[w].id);
             var n := GoodReadings(clock, 0, |losers|);
             && d == c.(forks := d.forks, selected := Some(c.forks[w].id)) && |d.forks| == |c.forks|
             && d.forks[w] == c.forks[w].(isSelected := true)
             && DefeatTime(c.forks, losers, n, w) == None
             && forall i :: 0 <= i < |c.forks| && i != w ==>
                  d.forks[i] == ForkAfter(c, c.forks[w].hash, losers, clock, 0, n, i)
    ensures d == c <==> NothingToDo(c, w, clock)
  {
    hide DefeatTime, LoserIds, GoodReadings;
    if NothingToDo(c, w, clock) {
      forall i | 0 <= i < |c.forks| ensures d.forks[i] == c.forks[i] {
      }
      assert d.forks == c.forks;
    }
  }

  /** A failed selection is atomic exactly when it does not fail on the clock, or finds nothing to do before that. */
  lemma {:induction false} FailureIsAtomicExactlyWhen(h: Digest, c: Commitment, id: Name, clock: Clock)
    requires Select(h, c, id, clock).1 != Selected
    ensures var w := IndexOf(c.forks, id);
            Select(h, c, id, clock).0 == c <==>
            || w.None?
            || !Passes(h, c, c.forks[w.value])
            || (NothingToDo(c, w.value, clock) && exists j :: 0 <= j < |LoserIds(c.forks, id)| && clock(j).None?)
  {
    hide Select, Passes, NothingToDo;
    OutcomeExactlyWhen(h, c, id, clock);
    UnchangedExactlyWhen(h, c, id, clock);
  }
}
