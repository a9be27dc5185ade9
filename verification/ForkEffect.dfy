/** The exact effect of invalidating the losing forks (dsm/src/commitments/precommit.rs). */
module ForkEffect {
  import opened Common
  import opened ForkBuffers
  import opened ForkSelection

  ghost predicate SameIds(a: seq<Fork>, b: seq<Fork>) {
    |a| == |b| && forall i :: 0 <= i < |a| ==> a[i].id == b[i].id
  }

  lemma {:induction false} SameIdsSameIndex(a: seq<Fork>, b: seq<Fork>, id: Name)
    requires SameIds(a, b)
    ensures IndexOf(a, id) == IndexOf(b, id)
  {
    if a != [] {
      SameIdsSameIndex(a[1..], b[1..], id);
    }
  }

  lemma {:induction false} LosersAreTheOthers(forks: seq<Fork>, winner: Name)
    ensures winner !in LoserIds(forks, winner)
    ensures forall i :: 0 <= i < |forks| && forks[i].id != winner ==> forks[i].id in LoserIds(forks, winner)
    ensures forall x :: x in LoserIds(forks, winner) ==> IndexOf(forks, x).Some?
  {
    if forks != [] {
      LosersAreTheOthers(forks[1..], winner);
      assert forall i :: 0 < i < |forks| ==> forks[i] == forks[1..][i - 1];
    }
  }

  // ---------------------------------------------------------------- one loser

  lemma {:induction false} InvalidateEffect(c: Commitment, loser: Name, winner: Name, now: nat)
    requires IndexOf(c.forks, winner).Some? && IndexOf(c.forks, loser).Some? && loser != winner
    ensures var next := Invalidate(c, loser, winner, now);
            var hash := c.forks[IndexOf(c.forks, winner).value].hash;
            && next == c.(forks := next.forks) && SameIds(c.forks, next.forks)
            && (forall x :: IndexOf(next.forks, x) == IndexOf(c.forks, x))
            && forall i :: 0 <= i < |c.forks| ==>
                 next.forks[i] ==
                 if IndexOf(c.forks, loser) == Some(i) then Defeated(c.forks[i], hash, c.signatures, now)
                 else c.forks[i]
  {
    var next := Invalidate(c, loser, winner, now);
    forall x ensures IndexOf(next.forks, x) == IndexOf(c.forks, x) {
      SameIdsSameIndex(c.forks, next.forks, x);
    }
  }

  /** The same, for one fork. */
  lemma {:induction false} InvalidateOne(c: Commitment, loser: Name, winner: Name, now: nat, i: nat)
    requires IndexOf(c.forks, winner).Some? && IndexOf(c.forks, loser).Some? && loser != winner && i < |c.forks|
    ensures var next := Invalidate(c, loser, winner, now);
            var hash := c.forks[IndexOf(c.forks, winner).value].hash;
            && next == c.(forks := next.forks) && SameIds(c.forks, next.forks)
            && next.forks[i] ==
               if IndexOf(c.forks, loser) == Some(i) then Defeated(c.forks[i], hash, c.signatures, now)
               else c.forks[i]
  {
    InvalidateEffect(c, loser, winner, now);
    hide Invalidate, IndexOf;
  }

  lemma {:induction false} InvalidateKeepsWinner(c: Commitment, loser: Name, winner: Name, now: nat)
    requires IndexOf(c.forks, winner).Some? && IndexOf(c.forks, loser).Some? && loser != winner
    ensures var next := Invalidate(c, loser, winner, now);
            var w := IndexOf(c.forks, winner);
            IndexOf(next.forks, winner) == w && next.forks[w.value] == c.forks[w.value]
  {
    InvalidateEffect(c, loser, winner, now);
    hide Invalidate, IndexOf;
  }

  lemma {:induction false} InvalidateKeepsIndex(c: Commitment, loser: Name, winner: Name, now: nat, losers: seq<Name>)
    requires IndexOf(c.forks, winner).Some? && IndexOf(c.forks, loser).Some? && loser != winner
    requires forall x :: x in losers ==> IndexOf(c.forks, x).Some?
    ensures forall x :: x in losers ==> IndexOf(Invalidate(c, loser, winner, now).forks, x).Some?
  {
    InvalidateEffect(c, loser, winner, now);
    hide Invalidate, IndexOf;
  }

  // ---------------------------------------------------------------- all losers, one clock reading each

  /** How many of the next `n` readings succeed before one fails. */
  function GoodReadings(clock: Clock, from: nat, n: nat): (r: nat)
    ensures r <= n
    ensures forall j :: from <= j < from + r ==> clock(j).Some?
    ensures r < n ==> clock(from + r).None?
    decreases n
  {
    if n == 0 || clock(from).None? then 0 else 1 + GoodReadings(clock, from + 1, n - 1)
  }

  /** The last of the first `n` positions that holds `x`. */
  function LastAt(losers: seq<Name>, x: Name, n: nat): (r: Option<nat>)
    requires n <= |losers|
    ensures r.Some? ==> r.value < n && losers[r.value] == x && forall j :: r.value < j < n ==> losers[j] != x
    ensures r.None? ==> forall j :: 0 <= j < n ==> losers[j] != x
    decreases n
  {
    if n == 0 then None
    else
      match LastAt(losers[1..], x, n - 1)
      case Some(j) => Some(j + 1)
      case None => if losers[0] == x then Some(0) else None
  }

  /** The reading, if any, at which the i-th fork was last invalidated; only the first fork of an id is. */
  function DefeatTime(forks: seq<Fork>, losers: seq<Name>, n: nat, i: nat): (r: Option<nat>)
    requires n <= |losers| && i < |forks|
    ensures r.Some? ==> r.value < n
  {
    if IndexOf(forks, forks[i].id) == Some(i) then LastAt(losers, forks[i].id, n) else None
  }

  /** A fork that was last invalidated at the given reading, if at all. */
  function ForkAt(f: Fork, when: Option<nat>, hash: Bytes, signatures: Signatures, clock: Clock, from: nat): Fork
    requires when.Some? ==> clock(from + when.value).Some?
  {
    match when
    case None => f
    case Some(j) => Defeated(f, hash, signatures, clock(from + j).value)
  }

  /** The i-th fork after `n` losers were invalidated with the readings from `from` on. */
  function ForkAfter(c: Commitment, hash: Bytes, losers: seq<Name>, clock: Clock, from: nat, n: nat, i: nat): Fork
    requires n <= |losers| && i < |c.forks|
    requires forall j :: from <= j < from + n ==> clock(j).Some?
  {
    ForkAt(c.forks[i], DefeatTime(c.forks, losers, n, i), hash, c.signatures, clock, from)
  }

  /** `d` is `c` with every fork as after `n` invalidations. */
  ghost predicate Invalidated(c: Commitment, d: Commitment, hash: Bytes, losers: seq<Name>, clock: Clock, from: nat,
                              n: nat)
    requires n <= |losers| && forall j :: from <= j < from + n ==> clock(j).Some?
  {
    && d == c.(forks := d.forks) && |d.forks| == |c.forks|
    && forall i :: 0 <= i < |c.forks| ==> d.forks[i] == ForkAfter(c, hash, losers, clock, from, n, i)
  }

  lemma {:induction false} DefeatTimeStep(forks: seq<Fork>, next: seq<Fork>, losers: seq<Name>, n: nat, i: nat)
    requires SameIds(forks, next) && 0 < n <= |losers| && i < |forks|
    ensures DefeatTime(forks, losers, n, i) ==
            match DefeatTime(next, losers[1..], n - 1, i)
            case Some(j) => Some(j + 1)
            case None => if IndexOf(forks, losers[0]) == Some(i) then Some(0) else None
  {
    SameIdsSameIndex(forks, next, forks[i].id);
    hide IndexOf;
  }

  /** One invalidation followed by the rest, on one fork. */
  lemma {:induction false} ForkAfterOne(c: Commitment, next: Commitment, losers: seq<Name>, winner: Name, clock: Clock,
                                        from: nat, n: nat, i: nat)
    requires 0 < n <= |losers| && i < |c.forks|
    requires forall j :: from <= j < from + n ==> clock(j).Some?
    requires IndexOf(c.forks, winner).Some? && IndexOf(c.forks, losers[0]).Some? && losers[0] != winner
    requires next == Invalidate(c, losers[0], winner, clock(from).value)
    ensures |next.forks| == |c.forks|
    ensures var hash := c.forks[IndexOf(c.forks, winner).value].hash;
            ForkAfter(next, hash, losers[1..], clock, from + 1, n - 1, i) ==
              ForkAfter(c, hash, losers, clock, from, n, i)
  {
    hide LastAt, IndexOf, DefeatTime, Invalidate;
    InvalidateOne(c, losers[0], winner, clock(from).value, i);
    DefeatTimeStep(c.forks, next.forks, losers, n, i);
    hide SameIds;
    var hash := c.forks[IndexOf(c.forks, winner).value].hash;
    ForkAtTwice(c.forks[i], next.forks[i], IndexOf(c.forks, losers[0]) == Some(i),
                DefeatTime(next.forks, losers[1..], n - 1, i), hash, c.signatures, clock, from);
  }

  lemma {:induction false} ForkAtTwice(f: Fork, g: Fork, first: bool, when: Option<nat>,
                                       hash: Bytes, signatures: Signatures, clock: Clock, from: nat)
    requires clock(from).Some? && (when.Some? ==> clock(from + 1 + when.value).Some?)
    requires g == if first then Defeated(f, hash, signatures, clock(from).value) else f
    ensures var both := match when case Some(j) => Some(j + 1) case None => if first then Some(0) else None;
            ForkAt(g, when, hash, signatures, clock, from + 1) == ForkAt(f, both, hash, signatures, clock, from)
  {
  }

  lemma {:induction false} InvalidatedNone(c: Commitment, hash: Bytes, losers: seq<Name>, clock: Clock, from: nat)
    ensures Invalidated(c, c, hash, losers, clock, from, 0)
  {
    hide IndexOf;
  }

  lemma {:induction false} InvalidatedOneMore(c: Commitment, next: Commitment, d: Commitment, losers: seq<Name>,
                                              winner: Name, clock: Clock, from: nat, n: nat)
    requires 0 < n <= |losers| && forall j :: from <= j < from + n ==> clock(j).Some?
    requires IndexOf(c.forks, winner).Some? && IndexOf(c.forks, losers[0]).Some? && losers[0] != winner
    requires next == Invalidate(c, losers[0], winner, clock(from).value)
    requires var hash := c.forks[IndexOf(c.forks, winner).value].hash;
             Invalidated(next, d, hash, losers[1..], clock, from + 1, n - 1)
    ensures var hash := c.forks[IndexOf(c.forks, winner).value].hash;
            Invalidated(c, d, hash, losers, clock, from, n)
  {
    hide ForkAfter, IndexOf;
    var hash := c.forks[IndexOf(c.forks, winner).value].hash;
    assert next == c.(forks := next.forks) && |next.forks| == |c.forks|;
    hide Invalidate;
    forall i | 0 <= i < |c.forks| ensures d.forks[i] == ForkAfter(c, hash, losers, clock, from, n, i) {
      ForkAfterOne(c, next, losers, winner, clock, from, n, i);
    }
  }

  /** The loop over the losers: its outcome, and every fork afterwards, also when the clock fails on the way. */
  lemma {:induction false} InvalidateAllExact(c: Commitment, losers: seq<Name>, winner: Name, clock: Clock, from: nat)
    requires IndexOf(c.forks, winner).Some? && winner !in losers
    requires forall x :: x in losers ==> IndexOf(c.forks, x).Some?
    ensures var (d, outcome) := InvalidateAll(c, losers, winner, clock, from);
            var n := GoodReadings(clock, from, |losers|);
            var hash := c.forks[IndexOf(c.forks, winner).value].hash;
            && outcome == (if n == |losers| then Selected else ClockFailed)
            && Invalidated(c, d, hash, losers, clock, from, n)
    decreases |losers|
  {
    hide IndexOf, Invalidate, ForkAfter, Invalidated, InvalidateAll, GoodReadings;
    if losers == [] || clock(from).None? {
      InvalidateAllStops(c, losers, winner, clock, from);
      InvalidatedNone(c, c.forks[IndexOf(c.forks, winner).value].hash, losers, clock, from);
    } else {
      var now, rest := clock(from).value, losers[1..];
      var next := Invalidate(c, losers[0], winner, now);
      assert losers[0] in losers && forall x :: x in rest ==> x in losers;
      InvalidateKeepsWinner(c, losers[0], winner, now);
      InvalidateKeepsIndex(c, losers[0], winner, now, rest);
      InvalidateAllSteps(c, losers, winner, clock, from);
      InvalidateAllExact(next, rest, winner, clock, from + 1);
      InvalidatedOneMore(c, next, InvalidateAll(next, rest, winner, clock, from + 1).0, losers, winner, clock, from,
                         GoodReadings(clock, from, |losers|));
    }
  }

  lemma {:induction false} InvalidateAllStops(c: Commitment, losers: seq<Name>, winner: Name, clock: Clock, from: nat)
    requires losers == [] || clock(from).None?
    ensures InvalidateAll(c, losers, winner, clock, from) == (c, if losers == [] then Selected else ClockFailed)
    ensures GoodReadings(clock, from, |losers|) == 0
  {
  }

  lemma {:induction false} InvalidateAllSteps(c: Commitment, losers: seq<Name>, winner: Name, clock: Clock, from: nat)
    requires losers != [] && clock(from).Some?
    ensures InvalidateAll(c, losers, winner, clock, from) ==
            InvalidateAll(Invalidate(c, losers[0], winner, clock(from).value), losers[1..], winner, clock, from + 1)
    ensures GoodReadings(clock, from, |losers|) == 1 + GoodReadings(clock, from + 1, |losers| - 1)
  {
    hide Invalidate;
  }
}
