/** Sampled verification of a hash chain (verify_chain_with_tee_sampling). */
module TeeSampling {
  import opened Common
  import opened HashChain
  import opened ChainTheorems

  /** `deterministic_select`: the first eight bytes, little endian and zero padded, modulo the bound. */
  function Select(hash: Bytes, max: u64): (n: u64)
    ensures max > 0 ==> n < max
    ensures max == 0 ==> n == 0
  {
    if max <= 1 then 0
    else FromLittleEndian(if |hash| > 8 then hash[..8] else hash) % max
  }

  /** A digest that starts with a number selects that number modulo the bound, whatever follows. */
  lemma {:induction false} SelectTakesTheFirstBytes(n: u64, rest: Bytes, max: u64)
    requires max > 1
    ensures Select(LittleEndian(n, 8) + rest, max) == n % max
  {
    var hash := LittleEndian(n, 8) + rest;
    assert hash[..8] == LittleEndian(n, 8);
    assert |hash| <= 8 ==> hash == hash[..8];
    Pow256Of8();
    LittleEndianRoundTrip(n, 8);
  }

  /** A digest of fewer than eight bytes counts as if zeros followed. */
  lemma {:induction false} SelectPadsWithZeros(hash: Bytes, zeros: nat, max: u64)
    requires |hash| + zeros == 8
    ensures Select(hash, max) == Select(hash + seq(zeros, _ => 0), max)
  {
    var padded := hash + seq(zeros, _ => 0);
    assert padded[..8] == padded;
    TrailingZeros(hash, zeros);
  }

  datatype Position = Position(current: State, verified: set<u64>)

  function Pick(h: Digest, seed: Bytes, current: State, sample: nat): u64 {
    Select(h(seed + LittleEndian(current.number, 8) + LittleEndian(sample, 4)), current.number)
  }

  /**
   What a sample hashes, told by decoding: the seed, then the current number in eight bytes, then the
   sample number in four. The first eight bytes of that digest pick the state.
   */
  lemma {:induction false} PickExactly(h: Digest, seed: Bytes, current: State, sample: nat, bytes: Bytes)
    requires |bytes| == |seed| + 12 && bytes[..|seed|] == seed
    requires FromLittleEndian(bytes[|seed|..|seed| + 8]) == current.number
    requires FromLittleEndian(bytes[|seed| + 8..]) == sample
    requires current.number > 1 && |h(bytes)| >= 8
    ensures Pick(h, seed, current, sample) == FromLittleEndian(h(bytes)[..8]) % current.number
  {
    var number, count := bytes[|seed|..|seed| + 8], bytes[|seed| + 8..];
    FromLittleEndianRoundTrip(number);
    FromLittleEndianRoundTrip(count);
    assert bytes == seed + number + count;
    var d := h(bytes);
    assert |d| <= 8 ==> d == d[..8];
    FromLittleEndianBound(d[..8]);
  }

  /** Link `lower` to `upper` through the states listed between them. */
  function Connect(h: Digest, states: seq<State>, lower: State, upper: State, verified: set<u64>)
    : Result<set<u64>, Error>
  {
    match Fill(h, lower, Between(states, lower.number, upper.number), verified)
    case Err(e) => Err(e)
    case Ok(f) =>
      match VerifyLink(h, if f.last.number != lower.number then f.last else lower, upper)
      case Err(e) => Err(e)
      case Ok(_) => Ok(f.verified)
  }

  /** The checkpoint of a selected state, when it has one below itself, is linked and then marked. */
  function Mark(h: Digest, states: seq<State>, selected: State, verified: set<u64>): Result<set<u64>, Error> {
    if selected.checkpoint < selected.number then
      match First(states, selected.checkpoint)
      case None => Err(MissingState(selected.checkpoint))
      case Some(cp) =>
        match VerifyLink(h, cp, selected)
        case Err(e) => Err(e)
        case Ok(_) => Ok(verified + {cp.number})
    else Ok(verified)
  }

  /** One iteration of the sampling loop. */
  function Sample(h: Digest, states: seq<State>, seed: Bytes, p: Position, sample: nat): Result<Position, Error> {
    var index := Pick(h, seed, p.current, sample);
    if index in p.verified then Ok(p)
    else
      match First(states, index)
      case None => Err(MissingState(index))
      case Some(selected) =>
        match Mark(h, states, selected, p.verified)
        case Err(e) => Err(e)
        case Ok(marked) =>
          var linked := if selected.number < p.current.number
                        then Connect(h, states, selected, p.current, marked)
                        else Connect(h, states, p.current, selected, marked);
          match linked
          case Err(e) => Err(e)
          case Ok(verified) => Ok(Position(selected, verified))
  }

  /** Samples `from`, `from + 1`, ..., `count - 1`. */
  function Samples(h: Digest, states: seq<State>, seed: Bytes, p: Position, from: nat, count: nat)
    : Result<Position, Error>
    requires from <= count
    decreases count - from
  {
    if from == count then Ok(p)
    else
      match Sample(h, states, seed, p, from)
      case Err(e) => Err(e)
      case Ok(q) => Samples(h, states, seed, q, from + 1, count)
  }

  function TeeRun(h: Digest, states: seq<State>, target: State, entropy: Bytes, ephemeral: Bytes,
                  count: nat): Result<Position, Error>
  {
    Samples(h, states, h(entropy + ephemeral), Position(target, {target.number}), 0, count)
  }

  /** The run sees entropy and ephemeral seed only through their concatenation, in that order. */
  lemma {:induction false} SeedIsTheConcatenation(h: Digest, states: seq<State>, target: State, entropy: Bytes,
                                                  ephemeral: Bytes, whole: Bytes, count: nat)
    requires whole == entropy + ephemeral
    ensures TeeRun(h, states, target, entropy, ephemeral, count) == TeeRun(h, states, target, whole, [], count)
    ensures TeeRun(h, states, target, entropy, ephemeral, count) == TeeRun(h, states, target, [], whole, count)
    ensures TeeRun(h, states, target, entropy, ephemeral, 1) ==
            Sample(h, states, h(whole), Position(target, {target.number}), 0)
  {
    hide Sample;
    assert whole + [] == whole && [] + whole == whole;
  }

  /** `verify_chain_with_tee_sampling`. */
  method VerifyChainWithTeeSampling(h: Digest, states: seq<State>, target: State,
                                    entropy: Bytes, ephemeral: Bytes, count: nat)
    returns (r: Result<bool, Error>)
    ensures var run := TeeRun(h, states, target, entropy, ephemeral, count);
            if run.Ok? then r == Ok(true) else r == Err(run.error)
  {
    var seed := h(entropy + ephemeral);
    var current, verified := target, {target.number};
    for sample := 0 to count
      invariant TeeRun(h, states, target, entropy, ephemeral, count)
             == Samples(h, states, seed, Position(current, verified), sample, count)
    {
      var index := Pick(h, seed, current, sample);
      if index in verified {
        continue;
      }
      var found := First(states, index);
      if found.None? {
        return Err(MissingState(index));
      }
      var selected := found.value;
      var marked := Mark(h, states, selected, verified);
      if marked.Err? {
        return Err(marked.error);
      }
      verified := marked.value;
      var lower, upper := selected, current;
      if current.number <= selected.number {
        lower, upper := current, selected;
      }
      var filled := FillLoop(h, lower, Between(states, lower.number, upper.number), verified);
      if filled.Err? {
        return Err(filled.error);
      }
      var prev := filled.value.last;
      match VerifyLink(h, if prev.number != lower.number then prev else lower, upper) {
        case Err(e) => return Err(e);
        case Ok(_) =>
      }
      current, verified := selected, filled.value.verified;
    }
    r := Ok(true);
  }

  // ---------------------------------------------------------------- progress

  /** A sample that is not skipped and succeeds moves strictly down the chain. */
  lemma {:induction false} SampleMovesDown(h: Digest, states: seq<State>, seed: Bytes, p: Position, sample: nat)
    requires Sample(h, states, seed, p, sample).Ok?
    requires Pick(h, seed, p.current, sample) !in p.verified
    ensures Sample(h, states, seed, p, sample).value.current.number < p.current.number
  {
    hide Fill, First, Between;
    if p.current.number == 0 {
      GenesisCannotBeResampled(h, states, seed, p, sample);
    }
  }

  /**
   At genesis every further sample picks genesis again: it is skipped when 0 is marked as verified
   and is an error otherwise, because a state never follows itself.
   */
  lemma {:induction false} GenesisCannotBeResampled(h: Digest, states: seq<State>, seed: Bytes, p: Position,
                                                    sample: nat)
    requires p.current.number == 0
    ensures Sample(h, states, seed, p, sample).Ok? <==> 0 in p.verified
    ensures 0 in p.verified ==> Sample(h, states, seed, p, sample) == Ok(p)
  {
    hide Fill, First;
    var selected := First(states, 0);
    if 0 !in p.verified && selected.Some? {
      NothingBetween(states, 0, 0);
      FillNothing(h, p.current, p.verified);
    }
  }

  lemma {:induction false} NothingBetween(states: seq<State>, lo: u64, hi: u64)
    requires hi <= lo + 1
    ensures Between(states, lo, hi) == []
  {
    if states != [] {
      NothingBetween(states[1..], lo, hi);
    }
  }

  lemma {:induction false} FillNothing(h: Digest, prev: State, verified: set<u64>)
    ensures Fill(h, prev, [], verified) == Ok(Filled(prev, verified))
  {
  }

  // ---------------------------------------------------------------- what was checked

  /** The state of a given number that the run can see: the target itself or the first listed one. */
  function At(states: seq<State>, target: State, n: u64): Option<State> {
    if n == target.number then Some(target) else First(states, n)
  }

  /** The link into state `n` is there and holds. */
  ghost predicate LinkHolds(h: Digest, states: seq<State>, target: State, n: u64) {
    && n > 0
    && At(states, target, n).Some? && At(states, target, n - 1).Some?
    && Linked(h, At(states, target, n - 1).value, At(states, target, n).value)
  }

  /** The numbers that some sampled checkpoint marks as verified along the run. */
  ghost function Marks(h: Digest, states: seq<State>, seed: Bytes, p: Position, from: nat, count: nat): set<u64>
    requires from <= count
    decreases count - from
  {
    if from == count then {}
    else
      match Sample(h, states, seed, p, from)
      case Err(_) => {}
      case Ok(q) =>
        var here: set<u64> :=
          if q.current != p.current && q.current.checkpoint < q.current.number then {q.current.checkpoint} else {};
        here + Marks(h, states, seed, q, from + 1, count)
  }

  /**
   Where the run stands: every present, unmarked number above the current state has its link, and
   whatever is recorded as verified below the current state was marked by a checkpoint.
   */
  ghost predicate Checked(h: Digest, states: seq<State>, target: State, marks: set<u64>, p: Position) {
    && p.current.number <= target.number
    && At(states, target, p.current.number) == Some(p.current)
    && (forall n :: p.current.number < n <= target.number && n !in marks && At(states, target, n).Some? ==>
          LinkHolds(h, states, target, n))
    && (forall n :: n in p.verified && n < p.current.number ==> n in marks)
  }

  /** Filling a gap checks every listed number in it that is neither verified nor marked. */
  lemma {:induction false} FillChecks(h: Digest, states: seq<State>, target: State, prev: State, mids: seq<State>,
                                      verified: set<u64>, s: State)
    requires DistinctNumbers(states) && DistinctNumbers(mids)
    requires prev in states && prev.number < target.number
    requires forall m :: m in mids ==> m in states && 0 < m.number < target.number
    requires Fill(h, prev, mids, verified).Ok?
    requires s in mids && s.number !in verified
    ensures LinkHolds(h, states, target, s.number)
    decreases |mids|
  {
    hide DistinctNumbers;
    var next := if mids[0].number in verified then verified else verified + {mids[0].number};
    OnlyMemberOfItsNumber(states, mids[0]);
    OnlyMemberOfItsNumber(states, prev);
    if s == mids[0] {
      LinkMeaning(h, prev, s);
    } else {
      DistinctTail(mids);
      assert s in mids[1..];
      FillChecks(h, states, target, mids[0], mids[1..], next, s);
    }
  }

  lemma {:induction false} DistinctTail(mids: seq<State>)
    requires DistinctNumbers(mids) && mids != []
    ensures DistinctNumbers(mids[1..])
    ensures forall s :: s in mids && s != mids[0] ==> s in mids[1..] && s.number != mids[0].number
  {
    forall s | s in mids && s != mids[0]
      ensures s in mids[1..] && s.number != mids[0].number
    {
      var i :| 0 <= i < |mids| && mids[i] == s;
      assert mids[1..][i - 1] == s;
    }
  }

  /** The last state that the inner loop hands on is listed, or is where it started. */
  lemma {:induction false} FillEndsInside(h: Digest, prev: State, mids: seq<State>, verified: set<u64>)
    requires Fill(h, prev, mids, verified).Ok?
    ensures var last := Fill(h, prev, mids, verified).value.last; last == prev || last in mids
    decreases |mids|
  {
    if mids != [] {
      FillEndsInside(h, mids[0], mids[1..],
                     if mids[0].number in verified then verified else verified + {mids[0].number});
    }
  }

  /** Connecting a selected state to the current one checks every number of the gap not yet verified. */
  lemma {:induction false} ConnectChecks(h: Digest, states: seq<State>, target: State, lower: State, upper: State,
                                         verified: set<u64>, n: u64)
    requires DistinctNumbers(states)
    requires lower in states && lower.number < upper.number <= target.number
    requires At(states, target, upper.number) == Some(upper)
    requires Connect(h, states, lower, upper, verified).Ok?
    requires lower.number < n <= upper.number && At(states, target, n).Some?
    requires n < upper.number ==> n !in verified
    ensures LinkHolds(h, states, target, n)
  {
    hide DistinctNumbers, Fill, VerifyLink, Between, First, LinkHolds;
    if n < upper.number {
      var mids := Between(states, lower.number, upper.number);
      BetweenIsDistinct(states, lower.number, upper.number);
      FillChecks(h, states, target, lower, mids, verified, At(states, target, n).value);
    } else {
      ConnectEnds(h, states, target, lower, upper, verified);
    }
  }

  lemma {:induction false} ConnectEnds(h: Digest, states: seq<State>, target: State, lower: State, upper: State,
                                       verified: set<u64>)
    requires DistinctNumbers(states)
    requires lower in states && lower.number < upper.number <= target.number
    requires At(states, target, upper.number) == Some(upper)
    requires Connect(h, states, lower, upper, verified).Ok?
    ensures LinkHolds(h, states, target, upper.number)
  {
    hide DistinctNumbers, Fill, Between, First;
    var mids := Between(states, lower.number, upper.number);
    var last := Fill(h, lower, mids, verified).value.last;
    FillEndsInside(h, lower, mids, verified);
    var from := if last.number != lower.number then last else lower;
    LinkMeaning(h, from, upper);
    OnlyMemberOfItsNumber(states, from);
  }

  lemma {:induction false} SampleKeepsChecked(h: Digest, states: seq<State>, target: State, seed: Bytes,
                                              p: Position, sample: nat, marks: set<u64>)
    requires DistinctNumbers(states)
    requires Checked(h, states, target, marks, p)
    requires Sample(h, states, seed, p, sample).Ok?
    requires var q := Sample(h, states, seed, p, sample).value.current;
             q != p.current && q.checkpoint < q.number ==> q.checkpoint in marks
    ensures Checked(h, states, target, marks, Sample(h, states, seed, p, sample).value)
  {
    hide DistinctNumbers, Fill, VerifyLink, Between, First, LinkHolds, Pick;
    var index := Pick(h, seed, p.current, sample);
    if index !in p.verified {
      SampleMovesDown(h, states, seed, p, sample);
      var q := Sample(h, states, seed, p, sample).value;
      var marked := Mark(h, states, q.current, p.verified).value;
      forall n | q.current.number < n <= target.number && n !in marks && At(states, target, n).Some?
        ensures LinkHolds(h, states, target, n)
      {
        if n <= p.current.number {
          ConnectChecks(h, states, target, q.current, p.current, marked, n);
        }
      }
      FillGrows(h, q.current, Between(states, q.current.number, p.current.number), marked);
    }
  }

  lemma {:induction false} SamplesKeepChecked(h: Digest, states: seq<State>, target: State, seed: Bytes,
                                              p: Position, from: nat, count: nat, marks: set<u64>)
    requires from <= count && DistinctNumbers(states)
    requires Checked(h, states, target, marks, p)
    requires Samples(h, states, seed, p, from, count).Ok?
    requires Marks(h, states, seed, p, from, count) <= marks
    ensures Checked(h, states, target, marks, Samples(h, states, seed, p, from, count).value)
    decreases count - from
  {
    hide DistinctNumbers, Sample, Checked;
    if from < count {
      SampleKeepsChecked(h, states, target, seed, p, from, marks);
      SamplesKeepChecked(h, states, target, seed, Sample(h, states, seed, p, from).value, from + 1, count, marks);
    }
  }

  ghost function RunMarks(h: Digest, states: seq<State>, target: State, entropy: Bytes, ephemeral: Bytes,
                          count: nat): set<u64>
  {
    Marks(h, states, h(entropy + ephemeral), Position(target, {target.number}), 0, count)
  }

  /**
   After a successful run, every listed number from the lowest state reached up to the target has
   its link checked, except the numbers that a sampled checkpoint had marked as already verified.
   */
  lemma {:induction false} RunChecksAllButMarked(h: Digest, states: seq<State>, target: State, entropy: Bytes,
                                                 ephemeral: Bytes, count: nat)
    requires DistinctNumbers(states)
    requires TeeRun(h, states, target, entropy, ephemeral, count).Ok?
    ensures var low := TeeRun(h, states, target, entropy, ephemeral, count).value.current.number;
            var marks := RunMarks(h, states, target, entropy, ephemeral, count);
            && low <= target.number
            && (forall n :: low < n <= target.number && n !in marks && At(states, target, n).Some? ==>
                  LinkHolds(h, states, target, n))
  {
    hide DistinctNumbers, Sample, LinkHolds;
    SamplesKeepChecked(h, states, target, h(entropy + ephemeral), Position(target, {target.number}), 0, count,
                       RunMarks(h, states, target, entropy, ephemeral, count));
  }

  /** A checkpoint is only ever marked by its direct successor. */
  lemma {:induction false} MarksAreDirectPredecessors(h: Digest, states: seq<State>, seed: Bytes, p: Position,
                                                      from: nat, count: nat)
    requires from <= count
    requires Samples(h, states, seed, p, from, count).Ok?
    requires forall s :: s in states ==> s.checkpoint + 1 != s.number
    ensures Marks(h, states, seed, p, from, count) == {}
    decreases count - from
  {
    if from < count {
      var q := Sample(h, states, seed, p, from).value;
      SampleMarksOnlyPredecessor(h, states, seed, p, from);
      hide Sample;
      MarksAreDirectPredecessors(h, states, seed, q, from + 1, count);
    }
  }

  lemma {:induction false} SampleMarksOnlyPredecessor(h: Digest, states: seq<State>, seed: Bytes, p: Position,
                                                      sample: nat)
    requires Sample(h, states, seed, p, sample).Ok?
    ensures var q := Sample(h, states, seed, p, sample).value.current;
            q != p.current && q.checkpoint < q.number ==> q in states && q.checkpoint + 1 == q.number
  {
    hide Connect, First, Pick;
    var q := Sample(h, states, seed, p, sample).value.current;
    if q != p.current && q.checkpoint < q.number {
      LinkMeaning(h, First(states, q.checkpoint).value, q);
    }
  }

  /**
   When no listed state's checkpoint is its direct predecessor, a successful run has checked every
   link from the lowest state reached up to the target.
   */
  lemma {:induction false} RunChecksEveryLink(h: Digest, states: seq<State>, target: State, entropy: Bytes,
                                              ephemeral: Bytes, count: nat, n: u64)
    requires DistinctNumbers(states)
    requires TeeRun(h, states, target, entropy, ephemeral, count).Ok?
    requires forall s :: s in states ==> s.checkpoint + 1 != s.number
    requires TeeRun(h, states, target, entropy, ephemeral, count).value.current.number < n <= target.number
    ensures LinkHolds(h, states, target, n)
    decreases target.number - n
  {
    hide DistinctNumbers, Linked;
    RunChecksAllButMarked(h, states, target, entropy, ephemeral, count);
    MarksAreDirectPredecessors(h, states, h(entropy + ephemeral), Position(target, {target.number}), 0, count);
    hide TeeRun, RunMarks;
    if n < target.number {
      RunChecksEveryLink(h, states, target, entropy, ephemeral, count, n + 1);
    }
  }

  // ---------------------------------------------------------------- the condition is needed

  // Four states, the upper two correctly hashed by `h`, of which state 1 does not follow genesis.
  const S0 := State(0, [9], [], 9, Some([]))
  const S1 := State(1, [5], [], 9, Some([]))

  function S2(h: Digest): State {
    Hashed(h, 2, [5], 1)
  }

  function S3(h: Digest): State {
    Hashed(h, 3, S2(h).storedHash, 9)
  }

  function Slice(h: Digest): seq<State> {
    [S0, S1, S2(h)]
  }

  lemma {:induction false} SliceFacts(h: Digest)
    ensures First(Slice(h), 0) == Some(S0) && First(Slice(h), 1) == Some(S1) && First(Slice(h), 2) == Some(S2(h))
    ensures Between(Slice(h), 0, 2) == [S1]
    ensures DistinctNumbers(Slice(h))
  {
    ThreeStates(S0, S1, S2(h));
  }

  lemma {:induction false} ThreeStates(a: State, b: State, c: State)
    requires a.number == 0 && b.number == 1 && c.number == 2
    ensures First([a, b, c], 0) == Some(a) && First([a, b, c], 1) == Some(b) && First([a, b, c], 2) == Some(c)
    ensures Between([a, b, c], 0, 2) == [b]
    ensures DistinctNumbers([a, b, c])
  {
    assert [a, b, c][1..] == [b, c] && [b, c][1..] == [c] && [c][1..] == [];
    assert First([c], 2) == Some(c) && First([b, c], 2) == Some(c) && First([b, c], 1) == Some(b);
    assert Between([c], 0, 2) == [] && Between([b, c], 0, 2) == [b] + [];
  }

  lemma {:induction false} SliceLinks(h: Digest)
    ensures Linked(h, S1, S2(h)) && Linked(h, S2(h), S3(h)) && !Linked(h, S0, S1)
  {
    HashedLinks(h, S1, 2, 1, [5]);
    HashedLinks(h, S2(h), 3, 9, S2(h).storedHash);
    LinkMeaning(h, S0, S1);
  }

  lemma {:induction false} FirstSampleMarks(h: Digest, seed: Bytes)
    requires Pick(h, seed, S3(h), 0) == 2
    ensures Sample(h, Slice(h), seed, Position(S3(h), {3}), 0) == Ok(Position(S2(h), {3, 1}))
  {
    SliceFacts(h);
    SliceLinks(h);
    assert {3} + {1} == {3, 1};
    NothingBetween(Slice(h), 2, 3);
    FillNothing(h, S2(h), {3, 1});
    hide VerifyLink, Fill, First, Between, Pick;
    assert Mark(h, Slice(h), S2(h), {3}) == Ok({3, 1});
    assert Connect(h, Slice(h), S2(h), S3(h), {3, 1}) == Ok({3, 1});
  }

  lemma {:induction false} SecondSampleSkips(h: Digest, seed: Bytes)
    requires Pick(h, seed, S2(h), 1) == 0
    ensures Sample(h, Slice(h), seed, Position(S2(h), {3, 1}), 1) == Ok(Position(S0, {3, 1}))
  {
    SliceFacts(h);
    SliceLinks(h);
    assert Fill(h, S0, [S1], {3, 1}) == Ok(Filled(S1, {3, 1})) by {
      assert [S1][1..] == [];
      FillNothing(h, S1, {3, 1});
    }
    hide VerifyLink, Fill, First, Between, Pick;
    assert Connect(h, Slice(h), S0, S2(h), {3, 1}) == Ok({3, 1});
  }

  /**
   Under every digest whose first two picks are states 2 and 0: sampling state 2 marks its
   checkpoint 1, the broken link from genesis into state 1 is then skipped, and the run succeeds.
   */
  lemma {:induction false} MarkedLinkIsMissed(h: Digest, entropy: Bytes, ephemeral: Bytes)
    requires Pick(h, h(entropy + ephemeral), S3(h), 0) == 2 && Pick(h, h(entropy + ephemeral), S2(h), 1) == 0
    ensures var run := TeeRun(h, Slice(h), S3(h), entropy, ephemeral, 2);
            && DistinctNumbers(Slice(h)) && At(Slice(h), S3(h), 1).Some?
            && run.Ok? && run.value.current.number == 0
            && !LinkHolds(h, Slice(h), S3(h), 1)
  {
    var seed := h(entropy + ephemeral);
    FirstSampleMarks(h, seed);
    SecondSampleSkips(h, seed);
    SliceFacts(h);
    SliceLinks(h);
    hide Sample, First, VerifyLink, Pick, Linked;
    assert Samples(h, Slice(h), seed, Position(S0, {3, 1}), 2, 2) == Ok(Position(S0, {3, 1}));
    assert Samples(h, Slice(h), seed, Position(S2(h), {3, 1}), 1, 2) == Ok(Position(S0, {3, 1}));
    assert TeeRun(h, Slice(h), S3(h), entropy, ephemeral, 2) == Ok(Position(S0, {3, 1}));
  }
}
