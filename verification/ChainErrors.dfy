/** What the verifier's errors mean: each names a fault that is there (dsm/src/api/hashchain_api.rs). */
module ChainErrors {
  import opened Common
  import opened HashChain

  /** The number can be read off the first eight hashed bytes, and the previous hash follows it. */
  lemma {:induction false} PreimageLayout(s: State)
    requires s.payload.Some?
    ensures Preimage(s).Some?
    ensures var bytes := Preimage(s).value;
            && |bytes| == 8 + |s.prevHash| + |s.payload.value|
            && FromLittleEndian(bytes[..8]) == s.number
            && bytes[8..8 + |s.prevHash|] == s.prevHash && bytes[8 + |s.prevHash|..] == s.payload.value
  {
    assert Preimage(s).value[..8] == LittleEndian(s.number, 8);
    Pow256Of8();
    LittleEndianRoundTrip(s.number, 8);
  }

  /** The first state of a number is found: nothing before it has that number. */
  lemma {:induction false} FirstIsFirst(states: seq<State>, n: u64) returns (i: nat)
    requires First(states, n).Some?
    ensures i < |states| && First(states, n) == Some(states[i]) && states[i].number == n
    ensures forall j :: 0 <= j < i ==> states[j].number != n
  {
    if states[0].number == n {
      i := 0;
    } else {
      var k := FirstIsFirst(states[1..], n);
      i := k + 1;
      assert forall j :: 0 < j < i ==> states[j] == states[1..][j - 1];
    }
  }

  /** Some known state has this fault. */
  ghost predicate Faulty(h: Digest, known: seq<State>, e: Error) {
    match e
    case EmptyChain => known == []
    case MissingState(n) => forall s :: s in known ==> s.number != n
    case NonSequential(l, u) =>
      exists a, b :: a in known && b in known && a.number == l && b.number == u && u != (l + 1) % TWO_TO_THE_64
    case HashFailed(n) => exists s :: s in known && s.number == n && ComputeHash(h, s).None?
    case PrevHashMismatch(l, u) =>
      exists a, b :: a in known && b in known && a.number == l && b.number == u && HashOf(h, a) != Some(b.prevHash)
    case InvalidHash(n) => exists s :: s in known && s.number == n && ComputeHash(h, s) != Some(s.storedHash)
  }

  lemma {:induction false} LinkErrorIsTrue(h: Digest, known: seq<State>, lower: State, upper: State)
    requires lower in known && upper in known && VerifyLink(h, lower, upper).Err?
    ensures !VerifyLink(h, lower, upper).error.MissingState? && Faulty(h, known, VerifyLink(h, lower, upper).error)
  {
    hide ComputeHash;
  }

  lemma {:induction false} FillErrorIsTrue(h: Digest, known: seq<State>, prev: State, mids: seq<State>,
                                           verified: set<u64>)
    requires prev in known && (forall s :: s in mids ==> s in known) && Fill(h, prev, mids, verified).Err?
    ensures !Fill(h, prev, mids, verified).error.MissingState? && Faulty(h, known, Fill(h, prev, mids, verified).error)
    decreases |mids|
  {
    var s := mids[0];
    assert s in mids && forall t :: t in mids[1..] ==> t in mids;
    var next := if s.number in verified then verified else verified + {s.number};
    hide Faulty;
    if s.number !in verified && VerifyLink(h, prev, s).Err? {
      LinkErrorIsTrue(h, known, prev, s);
    } else {
      hide VerifyLink;
      FillErrorIsTrue(h, known, s, mids[1..], next);
    }
  }

  lemma {:induction false} FillEndsAmong(h: Digest, known: seq<State>, prev: State, mids: seq<State>,
                                         verified: set<u64>)
    requires prev in known && (forall s :: s in mids ==> s in known) && Fill(h, prev, mids, verified).Ok?
    ensures Fill(h, prev, mids, verified).value.last in known
    decreases |mids|
  {
    if mids != [] {
      assert mids[0] in mids && forall t :: t in mids[1..] ==> t in mids;
      FillEndsAmong(h, known, mids[0], mids[1..],
                    if mids[0].number in verified then verified else verified + {mids[0].number});
    }
  }

  /** What an error of the walk says of the listed states and the target. */
  ghost predicate ErrorIsTrue(h: Digest, states: seq<State>, target: State, e: Error) {
    match e
    case EmptyChain => states == []
    case MissingState(n) => n < target.number && forall s :: s in states ==> s.number != n
    case _ => Faulty(h, states + [target], e)
  }

  lemma {:induction false} WalkErrorIsTrue(h: Digest, states: seq<State>, target: State, current: State,
                                           verified: set<u64>)
    requires (current == target || current in states) && current.number <= target.number
    requires Walk(h, states, current, verified).Err?
    ensures !Walk(h, states, current, verified).error.EmptyChain?
    ensures ErrorIsTrue(h, states, target, Walk(h, states, current, verified).error)
    decreases current.number
  {
    hide First, Between, Fill, VerifyLink, Faulty;
    var known := states + [target];
    assert forall s :: s in known <==> s in states || s == target;
    if current.checkpoint < current.number {
      if cp :| First(states, current.checkpoint) == Some(cp) {
        var mids := Between(states, cp.number, current.number);
        var f := Fill(h, cp, mids, verified);
        if f.Err? {
          FillErrorIsTrue(h, known, cp, mids, verified);
          FillErrorIsNotEmpty(h, cp, mids, verified);
        } else {
          FillEndsAmong(h, known, cp, mids, verified);
          var last := if f.value.last.number != cp.number then f.value.last else cp;
          if VerifyLink(h, last, current).Err? {
            LinkErrorIsTrue(h, known, last, current);
            LinkErrorIsNotEmpty(h, last, current);
          } else {
            WalkErrorIsTrue(h, states, target, cp, f.value.verified + {cp.number});
          }
        }
      }
    } else {
      if p :| First(states, current.number - 1) == Some(p) {
        if VerifyLink(h, p, current).Err? {
          LinkErrorIsTrue(h, known, p, current);
          LinkErrorIsNotEmpty(h, p, current);
        } else {
          WalkErrorIsTrue(h, states, target, p, verified + {p.number});
        }
      }
    }
  }

  lemma {:induction false} LinkErrorIsNotEmpty(h: Digest, lower: State, upper: State)
    requires VerifyLink(h, lower, upper).Err?
    ensures !VerifyLink(h, lower, upper).error.EmptyChain?
  {
  }

  lemma {:induction false} FillErrorIsNotEmpty(h: Digest, prev: State, mids: seq<State>, verified: set<u64>)
    requires Fill(h, prev, mids, verified).Err?
    ensures !Fill(h, prev, mids, verified).error.EmptyChain?
    decreases |mids|
  {
    var next := if mids[0].number in verified then verified else verified + {mids[0].number};
    if mids[0].number !in verified && VerifyLink(h, prev, mids[0]).Err? {
      LinkErrorIsNotEmpty(h, prev, mids[0]);
    } else {
      hide VerifyLink;
      FillErrorIsNotEmpty(h, mids[0], mids[1..], next);
    }
  }

  /**
   Every error of the sparse walk is true: the slice is empty, the named state below the target is
   not listed, or two known states show the very fault that the error names.
   */
  lemma {:induction false} SparseErrorIsTrue(h: Digest, states: seq<State>, target: State)
    requires SparseCheck(h, states, target).Err?
    ensures ErrorIsTrue(h, states, target, SparseCheck(h, states, target).error)
    ensures SparseCheck(h, states, target) == Err(EmptyChain) <==> states == []
  {
    hide Walk;
    if states != [] {
      WalkErrorIsTrue(h, states, target, target, {target.number});
    }
  }
}
