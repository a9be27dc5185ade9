/**
 Why soundness of the sparse walk needs one hash per number: every history can be extended by a
 duplicate that misleads it (dsm/src/api/hashchain_api.rs).
 */
module ChainDuplicates {
  import opened Common
  import opened HashChain
  import opened ChainTheorems

  // ---------------------------------------------------------------- a state appended to the slice

  lemma {:induction false} FirstAppend(states: seq<State>, b: State, k: u64)
    requires k != b.number
    ensures First(states + [b], k) == First(states, k)
  {
    if states == [] {
      assert [b][1..] == [] && states + [b] == [b];
    } else {
      assert (states + [b])[1..] == states[1..] + [b];
      FirstAppend(states[1..], b, k);
    }
  }

  lemma {:induction false} BetweenAppend(states: seq<State>, b: State, lo: u64, hi: u64)
    ensures Between(states + [b], lo, hi) == Between(states, lo, hi) + if lo < b.number < hi then [b] else []
  {
    if states == [] {
      assert [b][1..] == [] && states + [b] == [b];
    } else {
      assert (states + [b])[1..] == states[1..] + [b];
      BetweenAppend(states[1..], b, lo, hi);
    }
  }

  /** The walk never looks at states numbered as its current one or higher. */
  lemma {:induction false} WalkIgnoresHigher(h: Digest, states: seq<State>, b: State, current: State,
                                             verified: set<u64>)
    requires current.number <= b.number
    ensures Walk(h, states + [b], current, verified) == Walk(h, states, current, verified)
    decreases current.number
  {
    hide First, Between, Fill, VerifyLink;
    if 0 < current.number && current.checkpoint < current.number {
      FirstAppend(states, b, current.checkpoint);
      var cp := First(states, current.checkpoint);
      if cp.Some? {
        BetweenAppend(states, b, cp.value.number, current.number);
        var lo := cp.value.number;
        assert Between(states + [b], lo, current.number) == Between(states, lo, current.number);
        var f := Fill(h, cp.value, Between(states, cp.value.number, current.number), verified);
        if f.Ok? {
          WalkIgnoresHigher(h, states, b, cp.value, f.value.verified + {cp.value.number});
        }
      }
    } else if 0 < current.number {
      FirstAppend(states, b, current.number - 1);
      var p := First(states, current.number - 1);
      if p.Some? {
        WalkIgnoresHigher(h, states, b, p.value, verified + {p.value.number});
      }
    }
  }

  // ---------------------------------------------------------------- the skipped duplicate

  /** The inner loop does not look at a state whose number was seen, but goes on from it. */
  lemma {:induction false} FillThenSkip(h: Digest, prev: State, mids: seq<State>, b: State, verified: set<u64>)
    requires Fill(h, prev, mids, verified).Ok? && b.number in Fill(h, prev, mids, verified).value.verified
    ensures Fill(h, prev, mids + [b], verified) == Ok(Filled(b, Fill(h, prev, mids, verified).value.verified))
    decreases |mids|
  {
    if mids == [] {
      assert [b][1..] == [] && mids + [b] == [b];
      assert Fill(h, b, [], verified) == Ok(Filled(b, verified));
    } else {
      assert (mids + [b])[1..] == mids[1..] + [b];
      FillThenSkip(h, mids[0], mids[1..], b,
                   if mids[0].number in verified then verified else verified + {mids[0].number});
    }
  }

  lemma {:induction false} BetweenOfChain(c: seq<State>, lo: nat, hi: nat)
    requires lo < hi <= |c| && hi < TWO_TO_THE_64 && forall i :: 0 <= i < |c| ==> c[i].number == i
    ensures Between(c, lo, hi) == c[lo + 1..hi]
  {
    BetweenIsAscending(c, lo, hi);
    hide Between;
    var mids := Between(c, lo, hi);
    forall i | 0 <= i < |mids| ensures lo < mids[i].number < hi && mids[i] == c[mids[i].number] {
      assert mids[i] in mids;
      var j :| 0 <= j < |c| && c[j] == mids[i];
    }
    AscendingIsTheSlice(c, lo, hi, mids);
  }

  /** A state on top of a duplicate `b` of the chain's state `m`, which is no part of the chain. */
  ghost predicate Misleads(h: Digest, c: seq<State>, b: State, t: State) {
    && Chain(h, c) && 0 < b.number < |c| && b.number + 1 < TWO_TO_THE_64
    && HashOf(h, b) != HashOf(h, c[b.number]) && !Linked(h, c[b.number - 1], b)
    && t.number == b.number + 1 && t.checkpoint < b.number && Linked(h, b, t)
  }

  /** The gap from any checkpoint up to the duplicate is filled by the chain, and ends in the duplicate. */
  lemma {:induction false} GapEndsInDuplicate(h: Digest, c: seq<State>, b: State, t: State)
    requires Misleads(h, c, b, t)
    ensures var f := Fill(h, c[t.checkpoint], Between(c + [b], t.checkpoint, t.number), {t.number});
            && f.Ok? && f.value.last == b
            && forall k :: k in f.value.verified ==> k >= t.checkpoint
  {
    hide Linked, Fill, Between, HashOf;
    var lo, hi := t.checkpoint, t.number;
    var mids := c[lo + 1..hi];
    BetweenOfChain(c, lo, hi);
    BetweenAppend(c, b, lo, hi);
    FillAcceptsTheSlice(h, c, lo, hi, {hi});
    FillRecords(h, c[lo], mids, {hi});
    assert mids[b.number - lo - 1] == c[b.number];
    FillThenSkip(h, c[lo], mids, b, {hi});
    FillGrows(h, c[lo], mids, {hi});
  }

  /** The chain below the checkpoint is accepted as if the duplicate were not there. */
  lemma {:induction false} WalkBelowDuplicate(h: Digest, c: seq<State>, b: State, k: nat, verified: set<u64>)
    requires Chain(h, c) && k < |c| && k <= b.number && forall x :: x in verified ==> x >= k
    ensures Walk(h, c + [b], c[k], verified) == Ok(true)
  {
    hide Linked, Walk;
    WalkIgnoresHigher(h, c, b, c[k], verified);
    AscendingStatesHaveAscendingGaps(c, c[k]);
    assert forall i :: 0 <= i <= k ==> c[..k + 1][i] == c[i];
    WalkIsComplete(h, c, c[..k + 1], verified);
  }

  lemma {:induction false} NoChainThroughDuplicate(h: Digest, c: seq<State>, b: State, t: State, d: seq<State>)
    requires Misleads(h, c, b, t)
    ensures !ChainTo(h, c + [b], t, d)
  {
    var m: nat := b.number;
    LinkMeaning(h, b, t);
    LinkMeaning(h, c[m], t);
    hide Linked, HashOf;
    if |d| == m + 2 && d[m] in c + [b] && d[m - 1] in c + [b] && d[m].number == m && d[m - 1].number == m - 1 {
      assert d[m] == c[m] || d[m] == b;
      assert d[m - 1] == c[m - 1];
      assert Chain(h, d) ==> Linked(h, d[m - 1], d[m]) && Linked(h, d[m + 1 - 1], d[m + 1]);
    }
  }

  /**
   In every history with any duplicate that reports another hash and is not linked itself: every
   target on top of the duplicate with a checkpoint below it is accepted, and no chain leads there.
   */
  lemma {:induction false} DuplicateMisleads(h: Digest, c: seq<State>, b: State, t: State)
    requires Misleads(h, c, b, t)
    ensures SparseCheck(h, c + [b], t) == Ok(true)
    ensures forall d :: !ChainTo(h, c + [b], t, d)
  {
    hide Linked, HashOf, Walk, First, Between, Fill, ChainTo;
    WalkAcceptsDuplicate(h, c, b, t);
    forall d ensures !ChainTo(h, c + [b], t, d) {
      NoChainThroughDuplicate(h, c, b, t, d);
    }
  }

  lemma {:induction false} WalkAcceptsDuplicate(h: Digest, c: seq<State>, b: State, t: State)
    requires Misleads(h, c, b, t)
    ensures Walk(h, c + [b], t, {t.number}) == Ok(true)
  {
    hide Linked, HashOf, Walk, First, Between, Fill;
    GapEndsInDuplicate(h, c, b, t);
    var k := t.checkpoint;
    FirstAppend(c, b, k);
    OnlyMemberOfItsNumber(c, c[k]);
    var f := Fill(h, c[k], Between(c + [b], k, t.number), {t.number}).value;
    WalkBelowDuplicate(h, c, b, k, f.verified + {k});
    WalkJumps(h, c + [b], t, {t.number}, c[k], f);
  }

  /** Such a duplicate and target exist for every digest, every history and every number in it above 0. */
  lemma {:induction false} EveryHistoryCanBeMisled(h: Digest, c: seq<State>, m: u64)
    requires Chain(h, c) && 0 < m < |c| && m + 1 < TWO_TO_THE_64
    ensures exists b: State, t: State ::
              b.number == m && SparseCheck(h, c + [b], t) == Ok(true) && forall d :: !ChainTo(h, c + [b], t, d)
  {
    var other: Bytes := if HashOf(h, c[m]) == Some([7]) then [8] else [7];
    var prevHash: Bytes := if HashOf(h, c[m - 1]) == Some([]) then [0] else [];
    var b := State(m, other, prevHash, 0, Some([]));
    var t := Hashed(h, m + 1, other, 0);
    HashedLinks(h, b, m + 1, 0, other);
    LinkMeaning(h, c[m - 1], b);
    assert b.number == m && Misleads(h, c, b, t);
    hide Misleads, Linked, SparseCheck, ChainTo;
    DuplicateMisleads(h, c, b, t);
  }
}
