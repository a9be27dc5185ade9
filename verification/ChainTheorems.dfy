/**
 When the sparse walk accepts, for every slice order, and what an accepted chain commits to.
 */
module ChainTheorems {
  import opened Common
  import opened HashChain

  ghost predicate Ascending(s: seq<State>) {
    forall i, j :: 0 <= i < j < |s| ==> s[i].number < s[j].number
  }

  /** Every gap that the walk from `current` jumps over is listed in ascending order. */
  ghost predicate GapsAscending(states: seq<State>, current: State)
    decreases current.number
  {
    if current.number == 0 then true
    else if current.checkpoint < current.number then
      && Ascending(Between(states, current.checkpoint, current.number))
      && var cp := First(states, current.checkpoint);
         cp.Some? ==> GapsAscending(states, cp.value)
    else
      var p := First(states, current.number - 1);
      p.Some? ==> GapsAscending(states, p.value)
  }

  // ---------------------------------------------------------------- acceptance, both directions

  lemma {:induction false} FillIsConsecutive(h: Digest, prev: State, mids: seq<State>, verified: set<u64>)
    requires DistinctNumbers(mids)
    requires forall s :: s in mids ==> s.number !in verified && s.number > 0
    requires Fill(h, prev, mids, verified).Ok?
    ensures forall i :: 0 <= i < |mids| ==> mids[i].number == prev.number + 1 + i
    decreases |mids|
  {
    if mids != [] {
      LinkMeaning(h, prev, mids[0]);
      assert forall s :: s in mids[1..] ==> s in mids;
      FillIsConsecutive(h, mids[0], mids[1..], verified + {mids[0].number});
      assert forall i :: 0 < i < |mids| ==> mids[i] == mids[1..][i - 1];
    }
  }

  lemma {:induction false} BetweenIsDistinct(states: seq<State>, lo: u64, hi: u64)
    requires DistinctNumbers(states)
    ensures DistinctNumbers(Between(states, lo, hi))
  {
    if states != [] {
      BetweenIsDistinct(states[1..], lo, hi);
      assert forall s :: s in Between(states[1..], lo, hi) ==> s in states[1..];
    }
  }

  lemma {:induction false} DistinctHasOneHash(h: Digest, states: seq<State>)
    requires DistinctNumbers(states)
    ensures SameNumberSameHash(h, states)
  {
    forall s, t | s in states && t in states && s.number == t.number
      ensures s == t
    {
      SameNumberSameState(states, s, t);
    }
  }

  lemma {:induction false} AcceptedGapsAscend(h: Digest, states: seq<State>, current: State, verified: set<u64>)
    requires DistinctNumbers(states)
    requires forall k :: k in verified ==> k >= current.number
    requires Walk(h, states, current, verified).Ok?
    ensures GapsAscending(states, current)
    decreases current.number
  {
    if current.number == 0 {
    } else if current.checkpoint < current.number {
      var cp := First(states, current.checkpoint).value;
      var mids := Between(states, cp.number, current.number);
      BetweenIsDistinct(states, cp.number, current.number);
      FillIsConsecutive(h, cp, mids, verified);
      FillGrows(h, cp, mids, verified);
      AcceptedGapsAscend(h, states, cp, Fill(h, cp, mids, verified).value.verified + {cp.number});
    } else {
      var p := First(states, current.number - 1).value;
      AcceptedGapsAscend(h, states, p, verified + {p.number});
    }
  }

  /** Strictly ascending integers that cover the open interval are the interval in order. */
  lemma {:induction false} AscendingCover(ns: seq<int>, lo: int, hi: int)
    requires lo < hi
    requires forall i, j :: 0 <= i < j < |ns| ==> ns[i] < ns[j]
    requires forall i :: 0 <= i < |ns| ==> lo < ns[i] < hi
    requires forall k :: lo < k < hi ==> k in ns
    ensures |ns| == hi - lo - 1
    ensures forall i :: 0 <= i < |ns| ==> ns[i] == lo + 1 + i
    decreases hi - lo
  {
    assert |ns| == 0 || lo < ns[0] < hi;
    if lo + 1 < hi {
      assert lo + 1 in ns;
      assert ns[0] == lo + 1;
      assert forall k :: lo + 1 < k < hi ==> k in ns ==> k in ns[1..];
      AscendingCover(ns[1..], lo + 1, hi);
      assert forall i :: 0 < i < |ns| ==> ns[i] == ns[1..][i - 1];
    }
  }

  /** An ascending list holding exactly the chain members between `lo` and `hi` is that slice. */
  lemma {:induction false} AscendingIsTheSlice(c: seq<State>, lo: nat, hi: nat, mids: seq<State>)
    requires lo < hi <= |c|
    requires forall i :: 0 <= i < |c| ==> c[i].number == i
    requires Ascending(mids)
    requires forall i :: 0 <= i < |mids| ==> lo < mids[i].number < hi && mids[i] == c[mids[i].number]
    requires forall k :: lo < k < hi ==> c[k] in mids
    ensures mids == c[lo + 1..hi]
  {
    var ns := seq(|mids|, i requires 0 <= i < |mids| => mids[i].number);
    forall k | lo < k < hi ensures k in ns {
      var i :| 0 <= i < |mids| && mids[i] == c[k];
      assert ns[i] == k;
    }
    AscendingCover(ns, lo, hi);
    forall i | 0 <= i < |mids| ensures mids[i] == c[lo + 1..hi][i] {
      assert ns[i] == lo + 1 + i;
    }
  }

  /** Filling a gap with the very slice of a chain succeeds. */
  lemma {:induction false} FillAcceptsTheSlice(h: Digest, c: seq<State>, lo: nat, hi: nat, verified: set<u64>)
    requires lo < hi <= |c| && Chain(h, c)
    requires forall k :: lo < k < hi ==> k !in verified
    ensures var f := Fill(h, c[lo], c[lo + 1..hi], verified);
            f.Ok? && f.value.last == c[hi - 1]
    decreases hi - lo
  {
    var mids := c[lo + 1..hi];
    if mids != [] {
      assert Linked(h, c[lo + 1 - 1], c[lo + 1]);
      assert mids[1..] == c[lo + 2..hi];
      FillAcceptsTheSlice(h, c, lo + 1, hi, verified + {mids[0].number});
    }
  }

  lemma {:induction false} SameNumberSameState(states: seq<State>, s: State, t: State)
    requires DistinctNumbers(states) && s in states && t in states && s.number == t.number
    ensures s == t
  {
    var i :| 0 <= i < |states| && states[i] == s;
    var j :| 0 <= j < |states| && states[j] == t;
  }

  lemma {:induction false} OnlyMemberOfItsNumber(states: seq<State>, s: State)
    requires DistinctNumbers(states) && s in states
    ensures First(states, s.number) == Some(s)
  {
    SameNumberSameState(states, First(states, s.number).value, s);
  }

  lemma {:induction false} ChainPrefix(h: Digest, states: seq<State>, c: seq<State>, n: nat)
    requires 0 < n < |c| && ChainTo(h, states, c[|c| - 1], c)
    ensures ChainTo(h, states, c[n - 1], c[..n])
    ensures c[n - 1] in states
  {
    var p := c[..n];
    assert forall i :: 0 <= i < n ==> p[i] == c[i];
  }

  /** Between a chain's checkpoint and its end, an ascending slice lists exactly the chain's members. */
  lemma {:induction false} GapOfChain(h: Digest, states: seq<State>, c: seq<State>, lo: nat)
    requires DistinctNumbers(states)
    requires lo + 1 < |c| && ChainTo(h, states, c[|c| - 1], c)
    requires Ascending(Between(states, lo, |c| - 1))
    ensures Between(states, lo, |c| - 1) == c[lo + 1..|c| - 1]
  {
    hide DistinctNumbers, Linked, Between;
    var hi := |c| - 1;
    var mids := Between(states, lo, hi);
    forall i | 0 <= i < |mids| ensures lo < mids[i].number < hi && mids[i] == c[mids[i].number] {
      assert mids[i] in mids;
      SameNumberSameState(states, mids[i], c[mids[i].number]);
    }
    AscendingIsTheSlice(c, lo, hi, mids);
  }

  lemma {:induction false} WalkIsComplete(h: Digest, states: seq<State>, c: seq<State>, verified: set<u64>)
    requires DistinctNumbers(states)
    requires |c| > 0 && ChainTo(h, states, c[|c| - 1], c)
    requires GapsAscending(states, c[|c| - 1])
    requires forall k :: k in verified ==> k >= |c| - 1
    ensures Walk(h, states, c[|c| - 1], verified) == Ok(true)
    decreases |c|
  {
    hide DistinctNumbers, Linked, Fill, Ascending, Walk, First, Between;
    var n := |c| - 1;
    if n == 0 {
      GenesisIsAccepted(h, states, c[0], verified);
      return;
    }
    assert Linked(h, c[n - 1], c[n]);
    if c[n].checkpoint < n {
      var lo := c[n].checkpoint;
      ChainPrefix(h, states, c, lo + 1);
      OnlyMemberOfItsNumber(states, c[lo]);
      GapOfChain(h, states, c, lo);
      FillAcceptsTheSlice(h, c, lo, n, verified);
      var f := Fill(h, c[lo], Between(states, lo, n), verified).value;
      FillGrows(h, c[lo], Between(states, lo, n), verified);
      assert c[..lo + 1][lo] == c[lo];
      WalkIsComplete(h, states, c[..lo + 1], f.verified + {lo});
      WalkJumps(h, states, c[n], verified, c[lo], f);
    } else {
      ChainPrefix(h, states, c, n);
      OnlyMemberOfItsNumber(states, c[n - 1]);
      assert c[..n][n - 1] == c[n - 1];
      WalkIsComplete(h, states, c[..n], verified + {n - 1});
      WalkSteps(h, states, c[n], verified, c[n - 1]);
    }
  }

  lemma {:induction false} GenesisIsAccepted(h: Digest, states: seq<State>, g: State, verified: set<u64>)
    requires g.number == 0
    ensures Walk(h, states, g, verified) == Ok(true)
  {
  }

  /** One unfolding of the walk at a state without a usable checkpoint. */
  lemma {:induction false} WalkSteps(h: Digest, states: seq<State>, current: State, verified: set<u64>, p: State)
    requires 0 < current.number <= current.checkpoint
    requires First(states, current.number - 1) == Some(p) && Linked(h, p, current)
    ensures Walk(h, states, current, verified) == Walk(h, states, p, verified + {p.number})
  {
    hide First, VerifyLink, Fill, Between;
  }

  /** One unfolding of the walk at a checkpoint. */
  lemma {:induction false} WalkJumps(h: Digest, states: seq<State>, current: State, verified: set<u64>, cp: State,
                                     f: Filled)
    requires current.checkpoint < current.number
    requires First(states, current.checkpoint) == Some(cp)
    requires Fill(h, cp, Between(states, cp.number, current.number), verified) == Ok(f)
    requires Linked(h, f.last, current) && (f.last.number == cp.number ==> f.last == cp)
    ensures Walk(h, states, current, verified) == Walk(h, states, cp, f.verified + {cp.number})
  {
    hide First, VerifyLink, Fill, Between;
  }

  /**
   For states with distinct numbers, in any order and with any checkpoints: the sparse walk accepts
   a target exactly when a full chain of links leads to it and every jumped gap is listed upward.
   */
  lemma {:induction false} AcceptedExactlyWhen(h: Digest, states: seq<State>, target: State)
    requires states != [] && DistinctNumbers(states)
    ensures SparseCheck(h, states, target).Ok? <==>
            (exists c :: ChainTo(h, states, target, c)) && GapsAscending(states, target)
    ensures SparseCheck(h, states, target).Ok? ==> SparseCheck(h, states, target).value
  {
    if SparseCheck(h, states, target).Ok? {
      DistinctHasOneHash(h, states);
      var c := WalkIsSound(h, states, target, {target.number});
      AcceptedGapsAscend(h, states, target, {target.number});
    }
    if GapsAscending(states, target) && exists c :: ChainTo(h, states, target, c) {
      var c :| ChainTo(h, states, target, c);
      WalkIsComplete(h, states, c, {target.number});
    }
    WalkNeverAnswersFalse(h, states, target, {target.number});
  }

  lemma {:induction false} WalkNeverAnswersFalse(h: Digest, states: seq<State>, current: State, verified: set<u64>)
    ensures var r := Walk(h, states, current, verified); r.Ok? ==> r.value
    decreases current.number
  {
    hide First, VerifyLink, Fill, Between;
    if current.number == 0 {
    } else if current.checkpoint < current.number {
      var cp := First(states, current.checkpoint);
      if cp.Some? {
        var f := Fill(h, cp.value, Between(states, cp.value.number, current.number), verified);
        if f.Ok? {
          WalkNeverAnswersFalse(h, states, cp.value, f.value.verified + {cp.value.number});
        }
      }
    } else {
      var p := First(states, current.number - 1);
      if p.Some? {
        WalkNeverAnswersFalse(h, states, p.value, verified + {p.value.number});
      }
    }
  }

  // ---------------------------------------------------------------- refinement of the linear check

  ghost predicate Dense(states: seq<State>) {
    forall i :: 0 <= i < |states| ==> states[i].number == i
  }

  /** The plain pairwise check of `states[..n]` followed by `target`. */
  ghost predicate LinearCheck(h: Digest, states: seq<State>, target: State)
    requires target.number <= |states|
  {
    && (forall i :: 0 < i < target.number ==> Linked(h, states[i - 1], states[i]))
    && (target.number > 0 ==> Linked(h, states[target.number - 1], target))
  }

  lemma {:induction false} AscendingStatesHaveAscendingGaps(states: seq<State>, current: State)
    requires Ascending(states)
    ensures GapsAscending(states, current)
    decreases current.number
  {
    if current.number == 0 {
    } else if current.checkpoint < current.number {
      BetweenIsAscending(states, current.checkpoint, current.number);
      var cp := First(states, current.checkpoint);
      if cp.Some? {
        AscendingStatesHaveAscendingGaps(states, cp.value);
      }
    } else {
      var p := First(states, current.number - 1);
      if p.Some? {
        AscendingStatesHaveAscendingGaps(states, p.value);
      }
    }
  }

  lemma {:induction false} BetweenIsAscending(states: seq<State>, lo: u64, hi: u64)
    requires Ascending(states)
    ensures Ascending(Between(states, lo, hi))
  {
    if states != [] {
      BetweenIsAscending(states[1..], lo, hi);
      assert forall s :: s in states[1..] ==> states[0].number < s.number;
    }
  }

  /**
   On a dense sorted slice the jump-and-fill walk accepts exactly what the linear pairwise check
   accepts: no checkpoint value can change the verdict.
   */
  lemma {:induction false} SparseRefinesLinear(h: Digest, states: seq<State>, target: State)
    requires states != [] && Dense(states) && target.number <= |states|
    ensures SparseCheck(h, states, target).Ok? <==> LinearCheck(h, states, target)
  {
    AcceptedExactlyWhen(h, states, target);
    AscendingStatesHaveAscendingGaps(states, target);
    if LinearCheck(h, states, target) {
      LinearGivesChain(h, states, target);
    }
    if c :| ChainTo(h, states, target, c) {
      ChainGivesLinear(h, states, target, c);
    }
  }

  lemma {:induction false} LinearGivesChain(h: Digest, states: seq<State>, target: State)
    requires Dense(states) && target.number <= |states| && LinearCheck(h, states, target)
    ensures ChainTo(h, states, target, states[..target.number] + [target])
  {
    var c := states[..target.number] + [target];
    assert forall i :: 0 <= i < target.number ==> c[i] == states[i];
  }

  lemma {:induction false} ChainGivesLinear(h: Digest, states: seq<State>, target: State, c: seq<State>)
    requires Dense(states) && target.number <= |states| && ChainTo(h, states, target, c)
    ensures LinearCheck(h, states, target)
  {
    forall i | 0 <= i < target.number ensures c[i] == states[i] {
      SameNumberSameState(states, c[i], states[i]);
    }
    forall i | 0 < i < target.number ensures Linked(h, states[i - 1], states[i]) {
      assert Linked(h, c[i - 1], c[i]);
    }
    if target.number > 0 {
      assert Linked(h, c[target.number - 1], c[target.number]);
    }
  }

  /** Checkpoints are not hashed and do not matter: any two assignments of them agree. */
  lemma {:induction false} CheckpointsDoNotMatter(h: Digest, states: seq<State>, target: State, states': seq<State>,
                                                  target': State)
    requires states != [] && Dense(states) && target.number <= |states|
    requires |states'| == |states|
    requires forall i :: 0 <= i < |states| ==> states'[i] == states[i].(checkpoint := states'[i].checkpoint)
    requires target' == target.(checkpoint := target'.checkpoint)
    ensures SparseCheck(h, states, target).Ok? == SparseCheck(h, states', target').Ok?
  {
    hide Linked, SparseCheck;
    SparseRefinesLinear(h, states, target);
    SparseRefinesLinear(h, states', target');
    forall i | 0 < i < target.number
      ensures Linked(h, states[i - 1], states[i]) == Linked(h, states'[i - 1], states'[i])
    {
      LinkIgnoresCheckpoints(h, states[i - 1], states[i], states'[i - 1].checkpoint, states'[i].checkpoint);
    }
    if target.number > 0 {
      LinkIgnoresCheckpoints(h, states[target.number - 1], target, states'[target.number - 1].checkpoint,
        target'.checkpoint);
    }
  }

  lemma {:induction false} LinkIgnoresCheckpoints(h: Digest, lower: State, upper: State, k: u64, m: u64)
    ensures Linked(h, lower.(checkpoint := k), upper.(checkpoint := m)) == Linked(h, lower, upper)
  {
  }

  /** A state of no payload whose stored hash is its recomputed one. */
  function Hashed(h: Digest, number: u64, prevHash: Bytes, checkpoint: u64): State {
    State(number, h(LittleEndian(number, 8) + prevHash + []), prevHash, checkpoint, Some([]))
  }

  lemma {:induction false} HashedLinks(h: Digest, lower: State, number: u64, checkpoint: u64, prevHash: Bytes)
    requires number == lower.number + 1 && HashOf(h, lower) == Some(prevHash)
    ensures Linked(h, lower, Hashed(h, number, prevHash, checkpoint))
  {
  }
}
