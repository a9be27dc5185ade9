/**
 Which links a sampled run of the hash-chain verifier vouches for: exactly those whose upper number
 no sampled checkpoint marked (dsm/src/api/hashchain_api.rs).
 */
module TeeMarks {
  import opened Common
  import opened HashChain
  import opened ChainTheorems
  import opened TeeSampling

  /** Another state of the same number that reports the same hash. */
  ghost predicate LooksLike(h: Digest, s: State, r: State) {
    s.number == r.number && HashOf(h, s) == HashOf(h, r)
  }

  /** Every listed state of r's number looks like `r`. */
  ghost predicate AllLookLike(h: Digest, states: seq<State>, r: State) {
    forall s :: s in states && s.number == r.number ==> HashOf(h, s) == HashOf(h, r)
  }

  function SwapOne(s: State, r: State): State {
    if s.number == r.number then r else s
  }

  /** The slice with `r` in the place of the states of its number. */
  function Swap(states: seq<State>, r: State): (t: seq<State>)
    ensures |t| == |states| && forall i :: 0 <= i < |t| ==> t[i] == SwapOne(states[i], r)
  {
    if states == [] then [] else [SwapOne(states[0], r)] + Swap(states[1..], r)
  }

  // ---------------------------------------------------------------- swapping is seen through hashes only

  lemma {:induction false} FirstAfterSwap(states: seq<State>, r: State, k: u64)
    ensures First(Swap(states, r), k) ==
            match First(states, k)
            case None => None
            case Some(s) => Some(SwapOne(s, r))
  {
    if states != [] {
      FirstAfterSwap(states[1..], r, k);
      assert Swap(states, r)[1..] == Swap(states[1..], r);
    }
  }

  lemma {:induction false} BetweenAfterSwap(states: seq<State>, r: State, lo: u64, hi: u64)
    ensures Between(Swap(states, r), lo, hi) == Swap(Between(states, lo, hi), r)
  {
    if states != [] {
      BetweenAfterSwap(states[1..], r, lo, hi);
      assert Swap(states, r)[1..] == Swap(states[1..], r);
      var rest := Between(states[1..], lo, hi);
      assert ([states[0]] + rest)[1..] == rest;
    }
  }

  /** A gap without the number of `r` is left alone. */
  lemma {:induction false} SwapOutside(states: seq<State>, r: State)
    requires forall s :: s in states ==> s.number != r.number
    ensures Swap(states, r) == states
  {
    forall i | 0 <= i < |states| ensures Swap(states, r)[i] == states[i] {
      assert states[i] in states;
    }
  }

  lemma {:induction false} LinkSeesHashes(h: Digest, a: State, b: State, upper: State)
    requires a.number == b.number && HashOf(h, a) == HashOf(h, b)
    ensures VerifyLink(h, a, upper) == VerifyLink(h, b, upper)
  {
  }

  /** The inner loop runs the same on both slices when the swapped number is already verified. */
  lemma {:induction false} FillAfterSwap(h: Digest, prev: State, prev': State, mids: seq<State>, verified: set<u64>,
                                         r: State)
    requires LooksLike(h, prev, prev') && AllLookLike(h, mids, r) && r.number in verified
    ensures var f, f' := Fill(h, prev, mids, verified), Fill(h, prev', Swap(mids, r), verified);
            match f
            case Err(e) => f' == Err(e)
            case Ok(a) => f'.Ok? && f'.value.verified == a.verified && LooksLike(h, a.last, f'.value.last)
    decreases |mids|
  {
    if mids != [] {
      var s, s' := mids[0], SwapOne(mids[0], r);
      assert s in mids && forall m :: m in mids[1..] ==> m in mids;
      assert Swap(mids, r)[0] == s' && Swap(mids, r)[1..] == Swap(mids[1..], r);
      LinkSeesHashes(h, prev, prev', s);
      hide VerifyLink, HashOf;
      FillAfterSwap(h, s, s', mids[1..], if s.number in verified then verified else verified + {s.number}, r);
    }
  }

  /** Connecting two states other than the swapped one: the swapped number is verified or outside the gap. */
  lemma {:induction false} ConnectAfterSwap(h: Digest, states: seq<State>, lower: State, upper: State,
                                            verified: set<u64>, r: State)
    requires AllLookLike(h, states, r)
    requires r.number in verified || r.number <= lower.number
    ensures Connect(h, Swap(states, r), lower, upper, verified) == Connect(h, states, lower, upper, verified)
  {
    var mids := Between(states, lower.number, upper.number);
    BetweenAfterSwap(states, r, lower.number, upper.number);
    hide Between;
    if r.number in verified {
      FillAfterSwap(h, lower, lower, mids, verified, r);
      var f, f' := Fill(h, lower, mids, verified), Fill(h, lower, Swap(mids, r), verified);
      hide Fill;
      if f.Ok? {
        LinkSeesHashes(h, f.value.last, f'.value.last, upper);
      }
      hide VerifyLink, HashOf;
    } else {
      SwapOutside(mids, r);
    }
  }

  lemma {:induction false} MarkAfterSwap(h: Digest, states: seq<State>, selected: State, verified: set<u64>, r: State)
    requires AllLookLike(h, states, r)
    ensures Mark(h, Swap(states, r), selected, verified) == Mark(h, states, selected, verified)
  {
    FirstAfterSwap(states, r, selected.checkpoint);
    var cp := First(states, selected.checkpoint);
    if cp.Some? {
      LinkSeesHashes(h, cp.value, SwapOne(cp.value, r), selected);
    }
    hide First, VerifyLink, HashOf;
  }

  // ---------------------------------------------------------------- one sample

  /** What one successful, unskipped sample does to the position. */
  lemma {:induction false} SampleEffect(h: Digest, states: seq<State>, seed: Bytes, p: Position, sample: nat)
    requires Sample(h, states, seed, p, sample).Ok? && Pick(h, seed, p.current, sample) !in p.verified
    ensures var q := Sample(h, states, seed, p, sample).value;
            && q.current.number == Pick(h, seed, p.current, sample) < p.current.number
            && p.verified <= q.verified
            && (q.current.checkpoint < q.current.number ==>
                  q.current.checkpoint in q.verified && q.current.checkpoint + 1 == q.current.number)
  {
    SampleMovesDown(h, states, seed, p, sample);
    SampleMarksOnlyPredecessor(h, states, seed, p, sample);
    var q := Sample(h, states, seed, p, sample).value;
    hide Pick, First, VerifyLink, Between, Fill;
    var marked := Mark(h, states, q.current, p.verified).value;
    FillRecords(h, q.current, Between(states, q.current.number, p.current.number), marked);
  }

  lemma {:induction false} SampleSkips(h: Digest, states: seq<State>, seed: Bytes, p: Position, sample: nat)
    requires Pick(h, seed, p.current, sample) in p.verified
    ensures Sample(h, states, seed, p, sample) == Ok(p)
  {
  }

  /** The parts of one successful, unskipped sample. */
  lemma {:induction false} SampleParts(h: Digest, states: seq<State>, seed: Bytes, p: Position, sample: nat)
    requires Sample(h, states, seed, p, sample).Ok? && Pick(h, seed, p.current, sample) !in p.verified
    ensures var selected := First(states, Pick(h, seed, p.current, sample));
            && selected.Some? && selected.value.number < p.current.number
            && var marked := Mark(h, states, selected.value, p.verified);
               && marked.Ok? && p.verified <= marked.value
               && var linked := Connect(h, states, selected.value, p.current, marked.value);
                  linked.Ok? && Sample(h, states, seed, p, sample) == Ok(Position(selected.value, linked.value))
  {
    SampleMovesDown(h, states, seed, p, sample);
    hide Pick, First, Connect, VerifyLink;
  }

  lemma {:induction false} SampleFromParts(h: Digest, states: seq<State>, seed: Bytes, p: Position, sample: nat,
                                           selected: State, marked: set<u64>)
    requires Pick(h, seed, p.current, sample) !in p.verified && selected.number < p.current.number
    requires First(states, Pick(h, seed, p.current, sample)) == Some(selected)
    requires Mark(h, states, selected, p.verified) == Ok(marked)
    requires Connect(h, states, selected, p.current, marked).Ok?
    ensures Sample(h, states, seed, p, sample) ==
            Ok(Position(selected, Connect(h, states, selected, p.current, marked).value))
  {
    hide Pick, First, Connect, Mark;
  }

  /** A sample that does not pick the swapped number, and keeps it verified or below, is the same on both slices. */
  lemma {:induction false} SampleAfterSwap(h: Digest, states: seq<State>, seed: Bytes, p: Position, sample: nat,
                                           r: State)
    requires AllLookLike(h, states, r) && Sample(h, states, seed, p, sample).Ok?
    requires Pick(h, seed, p.current, sample) !in p.verified ==>
               var index := Pick(h, seed, p.current, sample);
               index != r.number && (r.number in p.verified || r.number < index)
    ensures Sample(h, Swap(states, r), seed, p, sample) == Sample(h, states, seed, p, sample)
  {
    hide Pick, First, Mark, Connect, Sample;
    var index := Pick(h, seed, p.current, sample);
    if index in p.verified {
      SampleSkips(h, states, seed, p, sample);
      SampleSkips(h, Swap(states, r), seed, p, sample);
    } else {
      SampleParts(h, states, seed, p, sample);
      var selected := First(states, index).value;
      var marked := Mark(h, states, selected, p.verified).value;
      FirstAfterSwap(states, r, index);
      MarkAfterSwap(h, states, selected, p.verified, r);
      ConnectAfterSwap(h, states, selected, p.current, marked, r);
      SampleFromParts(h, Swap(states, r), seed, p, sample, selected, marked);
    }
  }

  // ---------------------------------------------------------------- whole runs

  /** Marks lie below the current state. */
  lemma {:induction false} MarksAreBelow(h: Digest, states: seq<State>, seed: Bytes, p: Position, from: nat, count: nat)
    requires from <= count && Samples(h, states, seed, p, from, count).Ok?
    ensures forall m :: m in Marks(h, states, seed, p, from, count) ==> m < p.current.number
    decreases count - from
  {
    if from < count {
      var q := Sample(h, states, seed, p, from).value;
      if Pick(h, seed, p.current, from) !in p.verified {
        SampleEffect(h, states, seed, p, from);
      }
      assert q.current.number <= p.current.number;
      hide Sample, Pick;
      MarksAreBelow(h, states, seed, q, from + 1, count);
    }
  }

  /** From a position that has n marked, or will mark it, the swapped slice gives the same run and the same marks. */
  lemma {:induction false} SamplesAfterSwap(h: Digest, states: seq<State>, seed: Bytes, p: Position, from: nat,
                                            count: nat, r: State)
    requires from <= count && AllLookLike(h, states, r) && Samples(h, states, seed, p, from, count).Ok?
    requires r.number in p.verified || r.number in Marks(h, states, seed, p, from, count)
    ensures Samples(h, Swap(states, r), seed, p, from, count) == Samples(h, states, seed, p, from, count)
    ensures Marks(h, Swap(states, r), seed, p, from, count) == Marks(h, states, seed, p, from, count)
    decreases count - from
  {
    hide AllLookLike;
    if from < count {
      var q := Sample(h, states, seed, p, from).value;
      MarksAreBelow(h, states, seed, q, from + 1, count);
      if Pick(h, seed, p.current, from) !in p.verified {
        SampleEffect(h, states, seed, p, from);
      } else {
        assert q == p;
      }
      hide Pick;
      SampleAfterSwap(h, states, seed, p, from, r);
      hide Sample;
      SamplesAfterSwap(h, states, seed, q, from + 1, count, r);
    }
  }

  /**
   A marked number is never looked at: in every successful run, putting any state that reports the
   same hash in its place changes neither the result nor the marks.
   */
  lemma {:induction false} MarkedIsNeverChecked(h: Digest, states: seq<State>, target: State, entropy: Bytes,
                                                ephemeral: Bytes, count: nat, r: State)
    requires TeeRun(h, states, target, entropy, ephemeral, count).Ok? && AllLookLike(h, states, r)
    requires r.number in RunMarks(h, states, target, entropy, ephemeral, count)
    ensures TeeRun(h, Swap(states, r), target, entropy, ephemeral, count) ==
            TeeRun(h, states, target, entropy, ephemeral, count)
    ensures RunMarks(h, Swap(states, r), target, entropy, ephemeral, count) ==
            RunMarks(h, states, target, entropy, ephemeral, count)
  {
    hide AllLookLike, Samples, Marks;
    SamplesAfterSwap(h, states, h(entropy + ephemeral), Position(target, {target.number}), 0, count, r);
  }

  // ---------------------------------------------------------------- what a run vouches for

  lemma {:induction false} SwapIsDistinct(states: seq<State>, r: State)
    requires DistinctNumbers(states)
    ensures DistinctNumbers(Swap(states, r))
  {
  }

  lemma {:induction false} SwapBack(states: seq<State>, r: State, s: State)
    requires DistinctNumbers(states) && s in states && s.number == r.number
    ensures Swap(Swap(states, r), s) == states
  {
    forall i | 0 <= i < |states| ensures Swap(Swap(states, r), s)[i] == states[i] {
      if states[i].number == s.number {
        SameNumberSameState(states, states[i], s);
      }
    }
  }

  lemma {:induction false} DistinctLookLike(h: Digest, states: seq<State>, s: State, r: State)
    requires DistinctNumbers(states) && s in states && LooksLike(h, s, r)
    ensures AllLookLike(h, states, r) && AllLookLike(h, Swap(states, r), s)
  {
    hide HashOf;
    forall t | t in states && t.number == r.number ensures HashOf(h, t) == HashOf(h, r) {
      SameNumberSameState(states, t, s);
    }
    forall t | t in Swap(states, r) && t.number == s.number ensures t == r {
      var i :| 0 <= i < |states| && Swap(states, r)[i] == t;
      assert t == SwapOne(states[i], r);
    }
  }

  /** A marked state is listed and reports a hash: its successor was linked to it. */
  lemma {:induction false} MarkedIsHashed(h: Digest, states: seq<State>, seed: Bytes, p: Position, from: nat,
                                          count: nat, n: u64)
    requires from <= count && Samples(h, states, seed, p, from, count).Ok?
    requires n in Marks(h, states, seed, p, from, count)
    ensures First(states, n).Some? && HashOf(h, First(states, n).value).Some?
    decreases count - from
  {
    var q := Sample(h, states, seed, p, from).value;
    if n in Marks(h, states, seed, q, from + 1, count) {
      hide Sample, First, HashOf;
      MarkedIsHashed(h, states, seed, q, from + 1, count, n);
    } else {
      hide Connect, First, Pick;
    }
  }

  /** The run succeeds and goes down past `n`. */
  ghost predicate PassesBelow(h: Digest, states: seq<State>, target: State, entropy: Bytes, ephemeral: Bytes,
                              count: nat, n: u64)
  {
    var run := TeeRun(h, states, target, entropy, ephemeral, count);
    run.Ok? && run.value.current.number < n
  }

  /**
   What passing the run says about the link into `n`: it holds, whatever state of that number with
   that hash the slice contains.
   */
  ghost predicate Vouches(h: Digest, states: seq<State>, target: State, entropy: Bytes, ephemeral: Bytes,
                          count: nat, n: u64)
    requires At(states, target, n).Some?
  {
    forall r: State ::
      && LooksLike(h, At(states, target, n).value, r)
      && PassesBelow(h, Swap(states, r), target, entropy, ephemeral, count, n) ==>
        LinkHolds(h, Swap(states, r), target, n)
  }

  lemma {:induction false} RunMarksAreBelow(h: Digest, states: seq<State>, target: State, entropy: Bytes,
                                            ephemeral: Bytes, count: nat)
    requires TeeRun(h, states, target, entropy, ephemeral, count).Ok?
    ensures forall m :: m in RunMarks(h, states, target, entropy, ephemeral, count) ==> m < target.number
  {
    MarksAreBelow(h, states, h(entropy + ephemeral), Position(target, {target.number}), 0, count);
  }

  /** Swapping a state for one that looks like it does not make its number marked. */
  lemma {:induction false} StaysUnmarked(h: Digest, states: seq<State>, target: State, entropy: Bytes,
                                         ephemeral: Bytes, count: nat, r: State)
    requires DistinctNumbers(states) && At(states, target, r.number).Some?
    requires LooksLike(h, At(states, target, r.number).value, r)
    requires TeeRun(h, Swap(states, r), target, entropy, ephemeral, count).Ok?
    requires r.number !in RunMarks(h, states, target, entropy, ephemeral, count)
    ensures r.number !in RunMarks(h, Swap(states, r), target, entropy, ephemeral, count)
  {
    hide TeeRun, RunMarks, LooksLike, DistinctNumbers, First;
    if r.number in RunMarks(h, Swap(states, r), target, entropy, ephemeral, count) {
      RunMarksAreBelow(h, Swap(states, r), target, entropy, ephemeral, count);
      var s := First(states, r.number).value;
      DistinctLookLike(h, states, s, r);
      SwapBack(states, r, s);
      MarkedIsNeverChecked(h, Swap(states, r), target, entropy, ephemeral, count, s);
    }
  }

  /** A state that looks like `s` but does not follow the state below it. */
  function Forged(h: Digest, s: State, below: Option<State>): State
    requires HashOf(h, s).Some?
  {
    var prevHash: Bytes := if below.Some? && HashOf(h, below.value) == Some([]) then [0] else [];
    State(s.number, HashOf(h, s).value, prevHash, s.checkpoint, s.payload)
  }

  lemma {:induction false} ForgedIsNotLinked(h: Digest, s: State, below: Option<State>)
    requires HashOf(h, s).Some? && HashOf(h, s) != Some([])
    ensures LooksLike(h, s, Forged(h, s, below))
    ensures below.Some? ==> !Linked(h, below.value, Forged(h, s, below))
  {
  }

  lemma {:induction false} ForgedBreaksTheLink(h: Digest, states: seq<State>, target: State, n: u64)
    requires 0 < n < target.number && First(states, n).Some?
    requires HashOf(h, First(states, n).value).Some? && HashOf(h, First(states, n).value) != Some([])
    ensures var r := Forged(h, First(states, n).value, First(states, n - 1));
            LooksLike(h, First(states, n).value, r) && !LinkHolds(h, Swap(states, r), target, n)
  {
    hide First, Linked, Forged, HashOf, Swap;
    var s, below := First(states, n).value, First(states, n - 1);
    ForgedIsNotLinked(h, s, below);
    var r := Forged(h, s, below);
    FirstAfterSwap(states, r, n);
    FirstAfterSwap(states, r, n - 1);
    assert At(Swap(states, r), target, n) == Some(r);
    assert At(Swap(states, r), target, n - 1) == below;
  }

  lemma {:induction false} HashIsNotEmpty(h: Digest, s: State)
    requires forall x :: h(x) != []
    ensures HashOf(h, s) != Some([])
  {
  }

  /** Some state that looks like a marked one breaks the link into it, and the run does not notice. */
  lemma {:induction false} MarkedCanBeForged(h: Digest, states: seq<State>, target: State, entropy: Bytes,
                                             ephemeral: Bytes, count: nat, n: u64)
    requires (forall x :: h(x) != []) && DistinctNumbers(states) && n > 0
    requires TeeRun(h, states, target, entropy, ephemeral, count).Ok?
    requires n in RunMarks(h, states, target, entropy, ephemeral, count)
    ensures At(states, target, n).Some?
    ensures exists r ::
              && LooksLike(h, At(states, target, n).value, r)
              && TeeRun(h, Swap(states, r), target, entropy, ephemeral, count) ==
                 TeeRun(h, states, target, entropy, ephemeral, count)
              && !LinkHolds(h, Swap(states, r), target, n)
  {
    RunMarksAreBelow(h, states, target, entropy, ephemeral, count);
    MarkedIsHashed(h, states, h(entropy + ephemeral), Position(target, {target.number}), 0, count, n);
    hide TeeRun, RunMarks, DistinctNumbers, First, LinkHolds, HashOf, Forged;
    var s := First(states, n).value;
    HashIsNotEmpty(h, s);
    ForgedBreaksTheLink(h, states, target, n);
    var r := Forged(h, s, First(states, n - 1));
    DistinctLookLike(h, states, s, r);
    hide AllLookLike;
    MarkedIsNeverChecked(h, states, target, entropy, ephemeral, count, r);
  }

  /**
   A run that succeeds and goes down past `n` vouches for the link into `n` exactly when no sampled
   checkpoint marked `n`.
   */
  lemma {:induction false} VouchesExactlyWhen(h: Digest, states: seq<State>, target: State, entropy: Bytes,
                                              ephemeral: Bytes, count: nat, n: u64)
    requires (forall x :: h(x) != []) && DistinctNumbers(states)
    requires n <= target.number && At(states, target, n).Some?
    requires PassesBelow(h, states, target, entropy, ephemeral, count, n)
    ensures Vouches(h, states, target, entropy, ephemeral, count, n) <==>
            n !in RunMarks(h, states, target, entropy, ephemeral, count)
  {
    hide TeeRun, RunMarks, DistinctNumbers, First, LinkHolds, LooksLike;
    if n in RunMarks(h, states, target, entropy, ephemeral, count) {
      MarkedCanBeForged(h, states, target, entropy, ephemeral, count, n);
    } else {
      forall r: State | LooksLike(h, At(states, target, n).value, r) &&
                        PassesBelow(h, Swap(states, r), target, entropy, ephemeral, count, n)
        ensures LinkHolds(h, Swap(states, r), target, n)
      {
        UnmarkedIsChecked(h, states, target, entropy, ephemeral, count, n, r);
      }
    }
  }

  lemma {:induction false} UnmarkedIsChecked(h: Digest, states: seq<State>, target: State, entropy: Bytes,
                                             ephemeral: Bytes, count: nat, n: u64, r: State)
    requires DistinctNumbers(states) && n <= target.number && At(states, target, n).Some?
    requires n !in RunMarks(h, states, target, entropy, ephemeral, count)
    requires LooksLike(h, At(states, target, n).value, r)
    requires PassesBelow(h, Swap(states, r), target, entropy, ephemeral, count, n)
    ensures LinkHolds(h, Swap(states, r), target, n)
  {
    assert r.number == n;
    FirstAfterSwap(states, r, n);
    SwapIsDistinct(states, r);
    hide TeeRun, RunMarks, DistinctNumbers, First, LinkHolds, HashOf;
    StaysUnmarked(h, states, target, entropy, ephemeral, count, r);
    RunChecksAllButMarked(h, Swap(states, r), target, entropy, ephemeral, count);
  }
}
