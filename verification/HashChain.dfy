/** The straight hash chain and its sparse-index walk (dsm/src/api/hashchain_api.rs). */
module HashChain {
  import opened Common

  /**
   The fields of a state that the verifier reads. `checkpoint` is `sparse_index.value()`, an
   arbitrary 64-bit number that is not covered by the hash. `payload` is every byte hashed after
   the state number and the previous hash, `None` when serializing those fields fails.
   */
  datatype State = State(
    number: u64,
    storedHash: Bytes,
    prevHash: Bytes,
    checkpoint: u64,
    payload: Option<Bytes>)

  datatype Error =
    | EmptyChain
    | MissingState(number: u64)
    | NonSequential(lower: u64, upper: u64)
    | HashFailed(number: u64)
    | PrevHashMismatch(lower: u64, upper: u64)
    | InvalidHash(number: u64)

  function Preimage(s: State): Option<Bytes> {
    match s.payload
    case None => None
    case Some(rest) => Some(LittleEndian(s.number, 8) + s.prevHash + rest)
  }

  function ComputeHash(h: Digest, s: State): Option<Bytes> {
    match Preimage(s)
    case None => None
    case Some(bytes) => Some(h(bytes))
  }

  /** `State::hash`: a stored hash wins over the recomputed one. */
  function HashOf(h: Digest, s: State): Option<Bytes> {
    if s.storedHash == [] then ComputeHash(h, s) else Some(s.storedHash)
  }

  /** `verify_straight_hash_chain`; the successor is taken modulo 2^64. */
  function VerifyLink(h: Digest, lower: State, upper: State): Result<(), Error> {
    if upper.number != (lower.number + 1) % TWO_TO_THE_64 then
      Err(NonSequential(lower.number, upper.number))
    else
      match HashOf(h, lower)
      case None => Err(HashFailed(lower.number))
      case Some(lowerHash) =>
        if lowerHash != upper.prevHash then
          Err(PrevHashMismatch(lower.number, upper.number))
        else
          match ComputeHash(h, upper)
          case None => Err(HashFailed(upper.number))
          case Some(upperHash) =>
            if upper.storedHash != upperHash then Err(InvalidHash(upper.number)) else Ok(())
  }

  predicate Linked(h: Digest, lower: State, upper: State) {
    VerifyLink(h, lower, upper).Ok?
  }

  /** What one accepted link says, for an upper state other than the wrapped-around zero. */
  lemma {:induction false} LinkMeaning(h: Digest, lower: State, upper: State)
    requires upper.number > 0
    ensures Linked(h, lower, upper) <==>
            && upper.number == lower.number + 1
            && HashOf(h, lower) == Some(upper.prevHash)
            && ComputeHash(h, upper) == Some(upper.storedHash)
  {
  }

  // ---------------------------------------------------------------- the walk, as a function

  function First(states: seq<State>, n: u64): (r: Option<State>)
    ensures r.Some? ==> r.value in states && r.value.number == n
    ensures r.None? ==> forall s :: s in states ==> s.number != n
  {
    if states == [] then None
    else if states[0].number == n then Some(states[0])
    else First(states[1..], n)
  }

  /** The states numbered strictly between `lo` and `hi`, in slice order. */
  function Between(states: seq<State>, lo: u64, hi: u64): (r: seq<State>)
    ensures forall s :: s in r <==> s in states && lo < s.number < hi
  {
    if states == [] then []
    else if lo < states[0].number < hi then [states[0]] + Between(states[1..], lo, hi)
    else Between(states[1..], lo, hi)
  }

  datatype Filled = Filled(last: State, verified: set<u64>)

  /** The inner loop: link `prev` to each intermediate state unless its number was already seen. */
  function Fill(h: Digest, prev: State, mids: seq<State>, verified: set<u64>): Result<Filled, Error>
    decreases |mids|
  {
    if mids == [] then Ok(Filled(prev, verified))
    else if mids[0].number in verified then Fill(h, mids[0], mids[1..], verified)
    else
      match VerifyLink(h, prev, mids[0])
      case Err(e) => Err(e)
      case Ok(_) => Fill(h, mids[0], mids[1..], verified + {mids[0].number})
  }

  /** The outer loop from `current` down to genesis. */
  function Walk(h: Digest, states: seq<State>, current: State, verified: set<u64>): Result<bool, Error>
    decreases current.number
  {
    if current.number == 0 then Ok(true)
    else if current.checkpoint < current.number then
      match First(states, current.checkpoint)
      case None => Err(MissingState(current.checkpoint))
      case Some(cp) =>
        match Fill(h, cp, Between(states, cp.number, current.number), verified)
        case Err(e) => Err(e)
        case Ok(f) =>
          match VerifyLink(h, if f.last.number != cp.number then f.last else cp, current)
          case Err(e) => Err(e)
          case Ok(_) => Walk(h, states, cp, f.verified + {cp.number})
    else
      match First(states, current.number - 1)
      case None => Err(MissingState(current.number - 1))
      case Some(p) =>
        match VerifyLink(h, p, current)
        case Err(e) => Err(e)
        case Ok(_) => Walk(h, states, p, verified + {p.number})
  }

  function SparseCheck(h: Digest, states: seq<State>, target: State): Result<bool, Error> {
    if states == [] then Err(EmptyChain) else Walk(h, states, target, {target.number})
  }

  // ---------------------------------------------------------------- the walk, as the source runs it

  method FillLoop(h: Digest, checkpoint: State, mids: seq<State>, verifiedBefore: set<u64>)
    returns (r: Result<Filled, Error>)
    ensures r == Fill(h, checkpoint, mids, verifiedBefore)
  {
    var prev, verified := checkpoint, verifiedBefore;
    for i := 0 to |mids|
      invariant Fill(h, checkpoint, mids, verifiedBefore) == Fill(h, prev, mids[i..], verified)
    {
      var state := mids[i];
      assert mids[i..][1..] == mids[i + 1..];
      if state.number !in verified {
        match VerifyLink(h, prev, state) {
          case Err(e) => return Err(e);
          case Ok(_) =>
        }
        verified := verified + {state.number};
      }
      prev := state;
    }
    r := Ok(Filled(prev, verified));
  }

  /** `verify_chain_with_sparse_index`. */
  method VerifyChainWithSparseIndex(h: Digest, states: seq<State>, target: State)
    returns (r: Result<bool, Error>)
    ensures r == SparseCheck(h, states, target)
    ensures r.Ok? ==> r.value
    ensures r.Ok? && SameNumberSameHash(h, states) ==> exists c :: ChainTo(h, states, target, c)
  {
    if states == [] {
      return Err(EmptyChain);
    }
    ghost var accepted := SameNumberSameHash(h, states) && SparseCheck(h, states, target).Ok?;
    if accepted {
      var c := WalkIsSound(h, states, target, {target.number});
    }
    var current, verified := target, {target.number};
    if current.number == 0 {
      return Ok(true);
    }
    while current.number > 0
      invariant SparseCheck(h, states, target) == Walk(h, states, current, verified)
      decreases current.number
    {
      var checkpoint := current.checkpoint;
      if checkpoint < current.number {
        var found := First(states, checkpoint);
        if found.None? {
          return Err(MissingState(checkpoint));
        }
        var cp := found.value;
        var filled := FillLoop(h, cp, Between(states, checkpoint, current.number), verified);
        if filled.Err? {
          return Err(filled.error);
        }
        var prev := filled.value.last;
        if prev.number != cp.number {
          match VerifyLink(h, prev, current) {
            case Err(e) => return Err(e);
            case Ok(_) =>
          }
        } else {
          match VerifyLink(h, cp, current) {
            case Err(e) => return Err(e);
            case Ok(_) =>
          }
        }
        current, verified := cp, filled.value.verified + {cp.number};
        if current.number == 0 {
          return Ok(true);
        }
        continue;
      }
      var found := First(states, current.number - 1);
      if found.None? {
        return Err(MissingState(current.number - 1));
      }
      match VerifyLink(h, found.value, current) {
        case Err(e) => return Err(e);
        case Ok(_) =>
      }
      current, verified := found.value, verified + {found.value.number};
    }
    r := Ok(current.number == 0);
  }

  // ---------------------------------------------------------------- what acceptance means

  /** States numbered 0, 1, ..., each linked to the one before. */
  ghost predicate Chain(h: Digest, c: seq<State>) {
    && |c| > 0
    && (forall i :: 0 <= i < |c| ==> c[i].number == i)
    && (forall i :: 0 < i < |c| ==> Linked(h, c[i - 1], c[i]))
  }

  /** A chain from genesis to `target` whose other members come from `states`. */
  ghost predicate ChainTo(h: Digest, states: seq<State>, target: State, c: seq<State>) {
    && Chain(h, c)
    && c[|c| - 1] == target
    && (forall i :: 0 <= i < |c| - 1 ==> c[i] in states)
  }

  ghost predicate DistinctNumbers(states: seq<State>) {
    forall i, j :: 0 <= i < j < |states| ==> states[i].number != states[j].number
  }

  ghost predicate SameNumberSameHash(h: Digest, states: seq<State>) {
    forall s, t :: s in states && t in states && s.number == t.number ==> HashOf(h, s) == HashOf(h, t)
  }

  /** A run of linked states numbered `lo`, `lo + 1`, ..., all from `states`. */
  ghost predicate Segment(h: Digest, states: seq<State>, lo: u64, seg: seq<State>) {
    && |seg| > 0
    && (forall i :: 0 <= i < |seg| ==> seg[i].number == lo + i && seg[i] in states)
    && (forall i :: 0 < i < |seg| ==> Linked(h, seg[i - 1], seg[i]))
  }

  lemma {:induction false} ExtendSegment(h: Digest, states: seq<State>, lo: u64, seg: seq<State>, s: State)
    requires Segment(h, states, lo, seg) && s in states && s.number == lo + |seg|
    requires Linked(h, seg[|seg| - 1], s)
    ensures Segment(h, states, lo, seg + [s])
  {
    assert (seg + [s])[|seg| - 1] == seg[|seg| - 1];
  }

  /**
   The inner loop keeps a linked segment from the checkpoint: whichever state it holds as `prev`,
   the segment has one of the same number and hash, even when duplicate numbers were skipped.
   */
  lemma {:induction false} FillIsSound(h: Digest, states: seq<State>, lo: u64, hi: u64, prev: State,
                                       mids: seq<State>, verified: set<u64>, seg: seq<State>)
    returns (out: seq<State>)
    requires SameNumberSameHash(h, states)
    requires Segment(h, states, lo, seg) && lo + |seg| <= hi
    requires prev in states && lo <= prev.number < lo + |seg|
    requires forall s :: s in mids ==> s in states && lo < s.number < hi
    requires forall k :: lo < k < hi ==> (k in verified <==> k < lo + |seg|)
    requires Fill(h, prev, mids, verified).Ok?
    ensures Segment(h, states, lo, out) && lo + |out| <= hi
    ensures var last := Fill(h, prev, mids, verified).value.last;
            last in states && lo <= last.number < lo + |out|
    ensures out[0] == seg[0]
    decreases |mids|
  {
    out := seg;
    if mids != [] {
      var s := mids[0];
      assert forall t :: t in mids[1..] ==> t in mids;
      if s.number in verified {
        out := FillIsSound(h, states, lo, hi, s, mids[1..], verified, seg);
      } else {
        LinkMeaning(h, prev, s);
        LinkSeesOnlyTheHash(h, prev, seg[|seg| - 1], s);
        ExtendSegment(h, states, lo, seg, s);
        out := FillIsSound(h, states, lo, hi, s, mids[1..], verified + {s.number}, seg + [s]);
      }
    }
  }

  lemma {:induction false} LinkSeesOnlyTheHash(h: Digest, a: State, b: State, upper: State)
    requires a.number == b.number && HashOf(h, a) == HashOf(h, b)
    ensures Linked(h, a, upper) <==> Linked(h, b, upper)
  {
  }

  lemma {:induction false} WalkIsSound(h: Digest, states: seq<State>, current: State, verified: set<u64>)
    returns (c: seq<State>)
    requires SameNumberSameHash(h, states)
    requires forall k :: k in verified ==> k >= current.number
    requires Walk(h, states, current, verified).Ok?
    ensures ChainTo(h, states, current, c)
    decreases current.number
  {
    if current.number == 0 {
      c := [current];
    } else if current.checkpoint < current.number {
      var cp := First(states, current.checkpoint).value;
      var mids := Between(states, cp.number, current.number);
      FillGrows(h, cp, mids, verified);
      var below := WalkIsSound(h, states, cp, Fill(h, cp, mids, verified).value.verified + {cp.number});
      var part := JumpIsSound(h, states, cp, current, verified);
      c := below + part[1..] + [current];
      GlueChain(h, states, below, part, current);
    } else {
      var p := First(states, current.number - 1).value;
      var below := WalkIsSound(h, states, p, verified + {p.number});
      LinkMeaning(h, p, current);
      c := below + [p][1..] + [current];
      GlueChain(h, states, below, [p], current);
    }
  }

  /** One accepted jump from `current` to the checkpoint `cp` fills the whole gap with links. */
  lemma {:induction false} JumpIsSound(h: Digest, states: seq<State>, cp: State, current: State, verified: set<u64>)
    returns (part: seq<State>)
    requires SameNumberSameHash(h, states) && cp in states && cp.number < current.number
    requires forall k :: k in verified ==> k >= current.number
    requires var f := Fill(h, cp, Between(states, cp.number, current.number), verified);
             f.Ok? && Linked(h, if f.value.last.number != cp.number then f.value.last else cp, current)
    ensures Segment(h, states, cp.number, part) && part[0] == cp
    ensures current.number == cp.number + |part| && Linked(h, part[|part| - 1], current)
  {
    var mids := Between(states, cp.number, current.number);
    var last := Fill(h, cp, mids, verified).value.last;
    var seg := FillIsSound(h, states, cp.number, current.number, cp, mids, verified, [cp]);
    var from := if last.number != cp.number then last else cp;
    LinkMeaning(h, from, current);
    part := seg[..current.number - cp.number];
    LinkSeesOnlyTheHash(h, from, part[|part| - 1], current);
  }

  lemma {:induction false} FillGrows(h: Digest, prev: State, mids: seq<State>, verified: set<u64>)
    requires Fill(h, prev, mids, verified).Ok?
    ensures forall k :: k in Fill(h, prev, mids, verified).value.verified ==>
              k in verified || exists s :: s in mids && s.number == k
    decreases |mids|
  {
    if mids != [] {
      FillGrows(h, mids[0], mids[1..],
                if mids[0].number in verified then verified else verified + {mids[0].number});
    }
  }

  lemma {:induction false} FillRecords(h: Digest, prev: State, mids: seq<State>, verified: set<u64>)
    requires Fill(h, prev, mids, verified).Ok?
    ensures verified <= Fill(h, prev, mids, verified).value.verified
    ensures forall s :: s in mids ==> s.number in Fill(h, prev, mids, verified).value.verified
    decreases |mids|
  {
    if mids != [] {
      FillRecords(h, mids[0], mids[1..],
                  if mids[0].number in verified then verified else verified + {mids[0].number});
    }
  }

  lemma {:induction false} GlueChain(h: Digest, states: seq<State>, below: seq<State>, part: seq<State>, current: State)
    requires |part| > 0 && |below| > 0 && ChainTo(h, states, part[0], below)
    requires Segment(h, states, part[0].number, part)
    requires current.number == part[0].number + |part| && Linked(h, part[|part| - 1], current)
    ensures ChainTo(h, states, current, below + part[1..] + [current])
  {
    var c := below + part[1..] + [current];
    forall i | 0 <= i < |c|
      ensures c[i].number == i && (i < |c| - 1 ==> c[i] in states) && (i > 0 ==> Linked(h, c[i - 1], c[i]))
    {
      if |below| <= i + 1 < |c| {
        assert c[i] == part[i - |below| + 1];
      }
      if |below| <= i < |c| {
        assert c[i - 1] == part[i - |below|];
      }
    }
  }
}
