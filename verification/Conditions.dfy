/** The condition language of smart commitments (dsm/src/commitments/smart_commitment.rs). */
module Conditions {
  import opened Common
  import opened Text

  datatype ThresholdOperator =
    GreaterThan | LessThan | Equal | GreaterThanOrEqual | LessThanOrEqual | NotEqual

  datatype CommitmentCondition =
    | TimeAfter(time: u64)
    | TimeBefore(time: u64)
    | ValueThreshold(parameterName: string, threshold: u64, operator: ThresholdOperator)
    | ExternalDataCommitment(expectedHash: Bytes, dataSource: string)
    | MultiSignature(requiredKeys: seq<Bytes>, needed: u64)
    | And(conditions: seq<CommitmentCondition>)
    | Or(conditions: seq<CommitmentCondition>)

  datatype CommitmentContext = CommitmentContext(
    parameters: map<string, u64>,
    externalHashes: map<string, Bytes>,
    signatures: map<Bytes, Bytes>,
    timestamp: u64)

  datatype CommitmentType =
    | TimeLocked(unlockTime: u64)
    | Conditional(condition: string, oraclePubkey: Bytes)
    | Recurring(period: u64, endDate: u64)

  // ---------------------------------------------------------------- evaluation

  predicate Compare(operator: ThresholdOperator, value: u64, threshold: u64) {
    match operator
    case GreaterThan => value > threshold
    case LessThan => value < threshold
    case Equal => value == threshold
    case GreaterThanOrEqual => value >= threshold
    case LessThanOrEqual => value <= threshold
    case NotEqual => value != threshold
  }

  /** How many entries of `keys`, repetitions included, have a signature. */
  function SignedEntries(keys: seq<Bytes>, signatures: map<Bytes, Bytes>): (n: nat)
    ensures n <= |keys|
  {
    if keys == [] then 0
    else SignedEntries(keys[..|keys| - 1], signatures) + if keys[|keys| - 1] in signatures then 1 else 0
  }

  /** `evaluate_condition`. */
  predicate Evaluate(c: CommitmentCondition, context: CommitmentContext) {
    match c
    case TimeAfter(time) => context.timestamp >= time
    case TimeBefore(time) => context.timestamp < time
    case ValueThreshold(name, threshold, operator) =>
      name in context.parameters && Compare(operator, context.parameters[name], threshold)
    case ExternalDataCommitment(hash, source) =>
      source in context.externalHashes && context.externalHashes[source] == hash
    case MultiSignature(keys, needed) => SignedEntries(keys, context.signatures) >= needed
    case And(conditions) => forall i | 0 <= i < |conditions| :: Evaluate(conditions[i], context)
    case Or(conditions) => exists i | 0 <= i < |conditions| :: Evaluate(conditions[i], context)
  }

  /** `evaluate_fixed`, which spells out two of the cases again. */
  predicate EvaluateFixed(c: CommitmentCondition, context: CommitmentContext, testMode: bool) {
    match c
    case TimeAfter(time) => if testMode then true else context.timestamp >= time
    case ValueThreshold(name, threshold, operator) =>
      if name in context.parameters then Compare(operator, context.parameters[name], threshold) else false
    case _ => Evaluate(c, context)
  }

  /** Test mode changes the answer only for a time lock at the root; without it the two agree. */
  lemma {:induction false} FixedAgreesExactlyWhen(c: CommitmentCondition, context: CommitmentContext, testMode: bool)
    ensures EvaluateFixed(c, context, testMode) <==> Evaluate(c, context) || (testMode && c.TimeAfter?)
  {
    match c
    case TimeAfter(_) =>
    case _ =>
  }

  /** The counting loop of the multi-signature case. */
  method CountValidSignatures(keys: seq<Bytes>, signatures: map<Bytes, Bytes>) returns (valid: nat)
    ensures valid == SignedEntries(keys, signatures)
  {
    valid := 0;
    for i := 0 to |keys|
      invariant valid == SignedEntries(keys[..i], signatures)
    {
      assert keys[..i + 1][..i] == keys[..i];
      if keys[i] in signatures {
        valid := valid + 1;
      }
    }
    assert keys[..|keys|] == keys;
  }

  // ---------------------------------------------------------------- signers

  /** The distinct listed keys that signed. */
  function Signers(keys: seq<Bytes>, signatures: map<Bytes, Bytes>): set<Bytes> {
    set k | k in keys && k in signatures
  }

  ghost predicate SignedKeyRepeats(keys: seq<Bytes>, signatures: map<Bytes, Bytes>) {
    exists i, j :: 0 <= i < j < |keys| && keys[i] == keys[j] && keys[i] in signatures
  }

  lemma {:induction false} SignersStep(keys: seq<Bytes>, signatures: map<Bytes, Bytes>)
    requires keys != []
    ensures var rest, last := keys[..|keys| - 1], keys[|keys| - 1];
            |Signers(keys, signatures)| ==
            |Signers(rest, signatures)| + if last in signatures && last !in rest then 1 else 0
  {
    var rest, last := keys[..|keys| - 1], keys[|keys| - 1];
    assert keys == rest + [last];
    var before, after := Signers(rest, signatures), Signers(keys, signatures);
    if last in signatures {
      assert after == before + {last};
    } else {
      assert after == before;
    }
  }

  /** The count is the number of distinct signers exactly when no signed key is listed twice; otherwise it is larger. */
  lemma {:induction false} CountIsDistinctExactlyWhen(keys: seq<Bytes>, signatures: map<Bytes, Bytes>)
    ensures SignedEntries(keys, signatures) >= |Signers(keys, signatures)|
    ensures SignedEntries(keys, signatures) == |Signers(keys, signatures)| <==> !SignedKeyRepeats(keys, signatures)
  {
    if keys == [] {
      assert Signers(keys, signatures) == {};
    } else {
      var rest, last := keys[..|keys| - 1], keys[|keys| - 1];
      SignersStep(keys, signatures);
      CountIsDistinctExactlyWhen(rest, signatures);
      RepeatsStep(keys, signatures);
    }
  }

  lemma {:induction false} RepeatsStep(keys: seq<Bytes>, signatures: map<Bytes, Bytes>)
    requires keys != []
    ensures var rest, last := keys[..|keys| - 1], keys[|keys| - 1];
            SignedKeyRepeats(keys, signatures) <==>
            SignedKeyRepeats(rest, signatures) || (last in signatures && last in rest)
  {
    var rest, last := keys[..|keys| - 1], keys[|keys| - 1];
    if SignedKeyRepeats(rest, signatures) {
      var i, j :| 0 <= i < j < |rest| && rest[i] == rest[j] && rest[i] in signatures;
      assert keys[i] == keys[j];
    }
    if last in signatures && last in rest {
      var i :| 0 <= i < |rest| && rest[i] == last;
      assert keys[i] == keys[|keys| - 1];
    }
    if SignedKeyRepeats(keys, signatures) {
      var i, j :| 0 <= i < j < |keys| && keys[i] == keys[j] && keys[i] in signatures;
      assert rest[i] == keys[i];
      assert j < |rest| ==> rest[j] == keys[j];
    }
  }

  /** A key listed `n` times lets its one owner meet any threshold up to `n`. */
  lemma {:induction false} OneSignerMeetsAThreshold(key: Bytes, n: u64, context: CommitmentContext)
    requires context.signatures.Keys == {key}
    ensures Evaluate(MultiSignature(seq(n, _ => key), n), context)
    ensures |Signers(seq(n, _ => key), context.signatures)| <= 1
  {
    AllEntriesSigned(key, n, context.signatures);
    var signers := Signers(seq(n, _ => key), context.signatures);
    if n > 0 {
      assert seq(n, _ => key)[0] == key;
      assert signers == {key};
    } else {
      assert signers == {};
    }
  }

  lemma {:induction false} AllEntriesSigned(key: Bytes, n: nat, signatures: map<Bytes, Bytes>)
    requires key in signatures
    ensures SignedEntries(seq(n, _ => key), signatures) == n
  {
    if n > 0 {
      AllEntriesSigned(key, n - 1, signatures);
      assert seq(n, _ => key)[..n - 1] == seq(n - 1, _ => key);
    }
  }

  /** Without a repeated signed key the condition is met exactly by enough distinct signers. */
  lemma {:induction false} EnoughSignersExactlyWhen(keys: seq<Bytes>, needed: u64, context: CommitmentContext)
    requires !SignedKeyRepeats(keys, context.signatures)
    ensures Evaluate(MultiSignature(keys, needed), context) <==> |Signers(keys, context.signatures)| >= needed
  {
    CountIsDistinctExactlyWhen(keys, context.signatures);
  }

  // ---------------------------------------------------------------- leaves

  function With(context: CommitmentContext, name: string, value: u64): CommitmentContext {
    context.(parameters := context.parameters[name := value])
  }

  predicate Met(operator: ThresholdOperator, name: string, threshold: u64, context: CommitmentContext) {
    Evaluate(ValueThreshold(name, threshold, operator), context)
  }

  /** Raising the value keeps the lower bounds met, and lowering it the upper bounds. */
  lemma {:induction false} ThresholdsFollowTheValue(name: string, threshold: u64, context: CommitmentContext, low: u64,
                                                    high: u64)
    requires low <= high
    ensures Met(GreaterThan, name, threshold, With(context, name, low)) ==>
              Met(GreaterThan, name, threshold, With(context, name, high))
    ensures Met(GreaterThanOrEqual, name, threshold, With(context, name, low)) ==>
              Met(GreaterThanOrEqual, name, threshold, With(context, name, high))
    ensures Met(LessThan, name, threshold, With(context, name, high)) ==>
              Met(LessThan, name, threshold, With(context, name, low))
    ensures Met(LessThanOrEqual, name, threshold, With(context, name, high)) ==>
              Met(LessThanOrEqual, name, threshold, With(context, name, low))
  {
  }

  /**
   For a bound parameter the operators come in complementary pairs, exactly one of the strict three
   is met, and equality is met exactly at the threshold.
   */
  lemma {:induction false} ThresholdsComplement(name: string, threshold: u64, context: CommitmentContext)
    requires name in context.parameters
    ensures Met(GreaterThanOrEqual, name, threshold, context) <==> !Met(LessThan, name, threshold, context)
    ensures Met(LessThanOrEqual, name, threshold, context) <==> !Met(GreaterThan, name, threshold, context)
    ensures Met(NotEqual, name, threshold, context) <==> !Met(Equal, name, threshold, context)
    ensures Met(Equal, name, threshold, context) <==> context.parameters[name] == threshold
    ensures Met(NotEqual, name, threshold, context) <==>
            Met(LessThan, name, threshold, context) || Met(GreaterThan, name, threshold, context)
    ensures !(Met(LessThan, name, threshold, context) && Met(GreaterThan, name, threshold, context))
  {
  }

  /** A parameter without a value meets no threshold at all. */
  lemma {:induction false} UnboundMeetsNothing(name: string, threshold: u64, operator: ThresholdOperator,
                                               context: CommitmentContext)
    requires name !in context.parameters
    ensures !Met(operator, name, threshold, context)
  {
  }

  /** External data is met exactly when the source reports that very hash. */
  lemma {:induction false} ExternalDataExactlyWhen(hash: Bytes, source: string, context: CommitmentContext)
    ensures Evaluate(ExternalDataCommitment(hash, source), context) <==> (source, hash) in context.externalHashes.Items
  {
  }

  /** A deadline is the complement of the lock at the same time. */
  lemma {:induction false} DeadlineComplementsLock(time: u64, context: CommitmentContext)
    ensures Evaluate(TimeBefore(time), context) <==> !Evaluate(TimeAfter(time), context)
    ensures Evaluate(TimeAfter(time), At(context, time))
  {
  }

  /** Every threshold on the parameter is a lower bound. */
  predicate OnlyLowerBounds(c: CommitmentCondition, name: string) {
    match c
    case ValueThreshold(n, _, operator) => n == name ==> operator in {GreaterThan, GreaterThanOrEqual}
    case And(conditions) => forall i | 0 <= i < |conditions| :: OnlyLowerBounds(conditions[i], name)
    case Or(conditions) => forall i | 0 <= i < |conditions| :: OnlyLowerBounds(conditions[i], name)
    case _ => true
  }

  /** A met tree with only lower bounds on a parameter stays met when the parameter rises. */
  lemma {:induction false} MonotoneInParameter(c: CommitmentCondition, context: CommitmentContext, name: string,
                                               low: u64, high: u64)
    requires OnlyLowerBounds(c, name) && low <= high && Evaluate(c, With(context, name, low))
    ensures Evaluate(c, With(context, name, high))
  {
    match c
    case And(conditions) =>
      forall i | 0 <= i < |conditions| ensures Evaluate(conditions[i], With(context, name, high)) {
        MonotoneInParameter(conditions[i], context, name, low, high);
      }
    case Or(conditions) =>
      var i :| 0 <= i < |conditions| && Evaluate(conditions[i], With(context, name, low));
      MonotoneInParameter(conditions[i], context, name, low, high);
    case _ =>
  }

  // ---------------------------------------------------------------- monotonicity

  /** Only new signers were added. */
  predicate MoreSignatures(a: CommitmentContext, b: CommitmentContext) {
    b == a.(signatures := b.signatures) && a.signatures.Keys <= b.signatures.Keys
  }

  lemma {:induction false} SignedEntriesGrow(keys: seq<Bytes>, a: map<Bytes, Bytes>, b: map<Bytes, Bytes>)
    requires a.Keys <= b.Keys
    ensures SignedEntries(keys, a) <= SignedEntries(keys, b)
  {
    if keys != [] {
      SignedEntriesGrow(keys[..|keys| - 1], a, b);
      assert keys[|keys| - 1] in a ==> keys[|keys| - 1] in a.Keys && keys[|keys| - 1] in b;
    }
  }

  /** A met condition stays met when signatures are added. */
  lemma {:induction false} MonotoneInSignatures(c: CommitmentCondition, a: CommitmentContext, b: CommitmentContext)
    requires MoreSignatures(a, b) && Evaluate(c, a)
    ensures Evaluate(c, b)
  {
    match c
    case MultiSignature(keys, _) =>
      SignedEntriesGrow(keys, a.signatures, b.signatures);
    case And(conditions) =>
      forall i | 0 <= i < |conditions| ensures Evaluate(conditions[i], b) {
        MonotoneInSignatures(conditions[i], a, b);
      }
    case Or(conditions) =>
      var i :| 0 <= i < |conditions| && Evaluate(conditions[i], a);
      MonotoneInSignatures(conditions[i], a, b);
    case _ =>
  }

  /** No deadline anywhere in the tree. */
  predicate NoDeadline(c: CommitmentCondition) {
    match c
    case TimeBefore(_) => false
    case And(conditions) => forall i | 0 <= i < |conditions| :: NoDeadline(conditions[i])
    case Or(conditions) => forall i | 0 <= i < |conditions| :: NoDeadline(conditions[i])
    case _ => true
  }

  function At(context: CommitmentContext, t: u64): CommitmentContext {
    context.(timestamp := t)
  }

  /** Without deadlines a met condition stays met as time passes. */
  lemma {:induction false} MonotoneInTime(c: CommitmentCondition, context: CommitmentContext, t: u64, later: u64)
    requires NoDeadline(c) && t <= later && Evaluate(c, At(context, t))
    ensures Evaluate(c, At(context, later))
  {
    match c
    case And(conditions) =>
      forall i | 0 <= i < |conditions| ensures Evaluate(conditions[i], At(context, later)) {
        MonotoneInTime(conditions[i], context, t, later);
      }
    case Or(conditions) =>
      var i :| 0 <= i < |conditions| && Evaluate(conditions[i], At(context, t));
      MonotoneInTime(conditions[i], context, t, later);
    case _ =>
  }

  /** No time named in the tree lies in the half-open interval after `t` up to `later`. */
  predicate NoTimeBetween(c: CommitmentCondition, t: u64, later: u64) {
    match c
    case TimeAfter(time) => !(t < time <= later)
    case TimeBefore(time) => !(t < time <= later)
    case And(conditions) => forall i | 0 <= i < |conditions| :: NoTimeBetween(conditions[i], t, later)
    case Or(conditions) => forall i | 0 <= i < |conditions| :: NoTimeBetween(conditions[i], t, later)
    case _ => true
  }

  /** Deadlines or not, the answer can only change at a time that the tree names. */
  lemma {:induction false} ConstantBetweenNamedTimes(c: CommitmentCondition, context: CommitmentContext, t: u64,
                                                     later: u64)
    requires t <= later && NoTimeBetween(c, t, later)
    ensures Evaluate(c, At(context, t)) <==> Evaluate(c, At(context, later))
  {
    match c
    case And(conditions) =>
      forall i | 0 <= i < |conditions|
        ensures Evaluate(conditions[i], At(context, t)) <==> Evaluate(conditions[i], At(context, later))
      {
        ConstantBetweenNamedTimes(conditions[i], context, t, later);
      }
    case Or(conditions) =>
      forall i | 0 <= i < |conditions|
        ensures Evaluate(conditions[i], At(context, t)) <==> Evaluate(conditions[i], At(context, later))
      {
        ConstantBetweenNamedTimes(conditions[i], context, t, later);
      }
    case _ =>
  }

  // ---------------------------------------------------------------- the first moment a tree is met

  function Later(a: Option<u64>, b: Option<u64>): Option<u64> {
    if a.None? || b.None? then None else if a.value >= b.value then a else b
  }

  function Earlier(a: Option<u64>, b: Option<u64>): Option<u64> {
    if a.None? then b else if b.None? then a else if a.value <= b.value then a else b
  }

  /**
   The first moment at which a tree without deadlines is met, given everything in the context but
   the time: the latest over an `And`, the earliest over an `Or`, `None` for never.
   */
  function FirstMet(c: CommitmentCondition, context: CommitmentContext): Option<u64>
    decreases c
  {
    match c
    case TimeAfter(time) => Some(time)
    case And(conditions) => AllMet(conditions, context)
    case Or(conditions) => AnyMet(conditions, context)
    case _ => if Evaluate(c, context) then Some(0) else None
  }

  function AllMet(cs: seq<CommitmentCondition>, context: CommitmentContext): Option<u64>
    decreases cs
  {
    if cs == [] then Some(0) else Later(FirstMet(cs[0], context), AllMet(cs[1..], context))
  }

  function AnyMet(cs: seq<CommitmentCondition>, context: CommitmentContext): Option<u64>
    decreases cs
  {
    if cs == [] then None else Earlier(FirstMet(cs[0], context), AnyMet(cs[1..], context))
  }

  predicate Reached(moment: Option<u64>, t: u64) {
    moment.Some? && moment.value <= t
  }

  /** The recursive evaluation of a tree without deadlines is one comparison with a time. */
  lemma {:induction false} MetExactlyFrom(c: CommitmentCondition, context: CommitmentContext, t: u64)
    requires NoDeadline(c)
    ensures Evaluate(c, At(context, t)) <==> Reached(FirstMet(c, context), t)
    decreases c
  {
    match c
    case And(conditions) => AllMetExactlyFrom(conditions, context, t);
    case Or(conditions) => AnyMetExactlyFrom(conditions, context, t);
    case _ =>
  }

  lemma {:induction false} AllMetExactlyFrom(cs: seq<CommitmentCondition>, context: CommitmentContext, t: u64)
    requires forall i :: 0 <= i < |cs| ==> NoDeadline(cs[i])
    ensures (forall i :: 0 <= i < |cs| ==> Evaluate(cs[i], At(context, t))) <==> Reached(AllMet(cs, context), t)
    decreases cs
  {
    if cs != [] {
      MetExactlyFrom(cs[0], context, t);
      AllMetExactlyFrom(cs[1..], context, t);
      hide Evaluate, FirstMet, NoDeadline;
      assert forall i :: 1 <= i < |cs| ==> cs[i] == cs[1..][i - 1];
    }
  }

  lemma {:induction false} AnyMetExactlyFrom(cs: seq<CommitmentCondition>, context: CommitmentContext, t: u64)
    requires forall i :: 0 <= i < |cs| ==> NoDeadline(cs[i])
    ensures (exists i :: 0 <= i < |cs| && Evaluate(cs[i], At(context, t))) <==> Reached(AnyMet(cs, context), t)
    decreases cs
  {
    if cs != [] {
      MetExactlyFrom(cs[0], context, t);
      AnyMetExactlyFrom(cs[1..], context, t);
      hide Evaluate, FirstMet, NoDeadline;
      assert forall i :: 1 <= i < |cs| ==> cs[i] == cs[1..][i - 1];
    }
  }

  // ---------------------------------------------------------------- the derived commitment type

  /** `unlock` is the largest time of a direct time lock among `cs`. */
  ghost predicate IsLatest(cs: seq<CommitmentCondition>, unlock: u64) {
    TimeAfter(unlock) in cs && forall t: u64 :: TimeAfter(t) in cs ==> t <= unlock
  }

  /** The loop that both type choices share; `latest` is 0 when there is no time lock. */
  method LatestTime(cs: seq<CommitmentCondition>) returns (hasTimeAfter: bool, latest: u64)
    ensures hasTimeAfter <==> exists t: u64 :: TimeAfter(t) in cs
    ensures hasTimeAfter ==> IsLatest(cs, latest)
  {
    hasTimeAfter, latest := false, 0;
    for i := 0 to |cs|
      invariant hasTimeAfter <==> exists t: u64 :: TimeAfter(t) in cs[..i]
      invariant hasTimeAfter ==> IsLatest(cs[..i], latest)
      invariant !hasTimeAfter ==> latest == 0
    {
      assert cs[..i + 1] == cs[..i] + [cs[i]];
      if cs[i].TimeAfter? {
        hasTimeAfter := true;
        latest := if latest >= cs[i].time then latest else cs[i].time;
      }
    }
    assert cs[..|cs|] == cs;
  }

  /** What makes a condition a time lock with this unlock time: the direct time locks decide. */
  ghost predicate LocksUntil(c: CommitmentCondition, unlock: u64) {
    match c
    case TimeAfter(time) => unlock == time
    case And(conditions) => IsLatest(conditions, unlock)
    case Or(conditions) => IsLatest(conditions, unlock)
    case _ => false
  }

  function OperatorName(operator: ThresholdOperator): string {
    match operator
    case GreaterThan => "GreaterThan"
    case LessThan => "LessThan"
    case Equal => "Equal"
    case GreaterThanOrEqual => "GreaterThanOrEqual"
    case LessThanOrEqual => "LessThanOrEqual"
    case NotEqual => "NotEqual"
  }

  /** The text of a condition that is not a time lock, as `new` writes it. */
  function Describe(c: CommitmentCondition): (string, Bytes)
    requires !c.TimeAfter?
  {
    match c
    case TimeBefore(time) => ("time_before_" + Decimal(time), [])
    case ValueThreshold(name, threshold, operator) =>
      ("threshold_" + name + "_" + OperatorName(operator) + "_" + Decimal(threshold), [])
    case ExternalDataCommitment(hash, source) => (source, hash)
    case MultiSignature(keys, needed) =>
      ("multi_sig_threshold_" + Decimal(needed), if keys != [] then keys[0] else [])
    case And(_) => ("compound", [])
    case Or(_) => ("compound", [])
  }

  /** What can be read back from the texts: the number at the end, the parameter, the source, and the first key. */
  lemma {:induction false} DescriptionReadsBack(c: CommitmentCondition)
    requires !c.TimeAfter?
    ensures c.TimeBefore? ==> |Describe(c).0| > 12 && DecimalValue(Describe(c).0[12..]) == c.time && Describe(c).1 == []
    ensures c.ValueThreshold? ==>
              var start := 10 + |c.parameterName| + 1 + |OperatorName(c.operator)| + 1;
              && |Describe(c).0| > start && DecimalValue(Describe(c).0[start..]) == c.threshold
              && Describe(c).0[10..10 + |c.parameterName|] == c.parameterName && Describe(c).1 == []
    ensures c.ExternalDataCommitment? ==> Describe(c) == (c.dataSource, c.expectedHash)
    ensures c.MultiSignature? ==>
              && |Describe(c).0| > 20 && DecimalValue(Describe(c).0[20..]) == c.needed
              && Describe(c).1 == (if |c.requiredKeys| == 0 then [] else c.requiredKeys[0])
  {
    match c
    case TimeBefore(time) =>
      DecimalRoundTrip(time);
      assert Describe(c).0[12..] == Decimal(time);
    case ValueThreshold(name, threshold, operator) =>
      DecimalRoundTrip(threshold);
      var head := "threshold_" + name + "_" + OperatorName(operator) + "_";
      assert Describe(c).0 == head + Decimal(threshold);
      assert Describe(c).0[|head|..] == Decimal(threshold);
    case MultiSignature(_, needed) =>
      DecimalRoundTrip(needed);
      assert Describe(c).0[20..] == Decimal(needed);
    case _ =>
  }

  /** The type choice in `new`. */
  method TypeInNew(c: CommitmentCondition) returns (r: CommitmentType)
    ensures forall unlock: u64 :: LocksUntil(c, unlock) <==> r == TimeLocked(unlock)
    ensures !c.TimeAfter? && !r.TimeLocked? ==> r == Conditional(Describe(c).0, Describe(c).1)
  {
    match c
    case TimeAfter(time) =>
      r := TimeLocked(time);
    case TimeBefore(_) | ValueThreshold(_, _, _) | ExternalDataCommitment(_, _) | MultiSignature(_, _) =>
      r := Conditional(Describe(c).0, Describe(c).1);
    case And(_) | Or(_) =>
      var hasTimeAfter, latest := LatestTime(c.conditions);
      r := if hasTimeAfter then TimeLocked(latest) else Conditional("compound", []);
  }

  /** `determine_compound_type`, which writes other texts but picks the same time locks. */
  method DetermineCompoundType(c: CommitmentCondition) returns (r: CommitmentType)
    ensures forall unlock: u64 :: LocksUntil(c, unlock) <==> r == TimeLocked(unlock)
    ensures !r.TimeLocked? ==>
              r == Conditional(
                     if c.TimeBefore? then "time_before" else if c.And? || c.Or? then "compound" else "complex", [])
  {
    match c
    case TimeAfter(time) =>
      r := TimeLocked(time);
    case TimeBefore(_) =>
      r := Conditional("time_before", []);
    case And(_) | Or(_) =>
      var hasTimeAfter, latest := LatestTime(c.conditions);
      r := if hasTimeAfter then TimeLocked(latest) else Conditional("compound", []);
    case _ =>
      r := Conditional("complex", []);
  }

  /** The unlock time is necessary for a single lock and for an `And`. */
  lemma {:induction false} UnlockTimeIsNecessary(c: CommitmentCondition, unlock: u64, context: CommitmentContext)
    requires LocksUntil(c, unlock) && !c.Or? && Evaluate(c, context)
    ensures context.timestamp >= unlock
  {
    if c.And? {
      var i :| 0 <= i < |c.conditions| && c.conditions[i] == TimeAfter(unlock);
      assert Evaluate(c.conditions[i], context);
    }
  }

  /** The unlock time is sufficient for a single lock and for an `Or`. */
  lemma {:induction false} UnlockTimeIsSufficient(c: CommitmentCondition, unlock: u64, context: CommitmentContext)
    requires LocksUntil(c, unlock) && !c.And? && context.timestamp >= unlock
    ensures Evaluate(c, context)
  {
    if c.Or? {
      var i :| 0 <= i < |c.conditions| && c.conditions[i] == TimeAfter(unlock);
      assert Evaluate(c.conditions[i], context);
    }
  }

  /**
   When the unlock time is the whole truth. For trees without deadlines it is the exact moment of
   an `And` just when the other conjuncts are met by then, and of an `Or` just when no disjunct is
   met one tick earlier.
   */
  lemma {:induction false} UnlockTimeIsExactWhen(c: CommitmentCondition, unlock: u64, context: CommitmentContext)
    requires LocksUntil(c, unlock) && NoDeadline(c)
    ensures !c.Or? ==>
              (Evaluate(c, At(context, unlock)) <==> forall t: u64 :: Evaluate(c, At(context, t)) <==> t >= unlock)
    ensures !c.And? ==>
              (unlock == 0 || !Evaluate(c, At(context, unlock - 1)) <==>
               forall t: u64 :: Evaluate(c, At(context, t)) <==> t >= unlock)
  {
    forall t: u64 ensures Evaluate(c, At(context, t)) <==> Reached(FirstMet(c, context), t) {
      MetExactlyFrom(c, context, t);
    }
    forall t: u64 ensures !c.Or? && Evaluate(c, At(context, t)) ==> t >= unlock {
      if !c.Or? && Evaluate(c, At(context, t)) {
        UnlockTimeIsNecessary(c, unlock, At(context, t));
      }
    }
    forall t: u64 ensures !c.And? && t >= unlock ==> Evaluate(c, At(context, t)) {
      if !c.And? && t >= unlock {
        UnlockTimeIsSufficient(c, unlock, At(context, t));
      }
    }
    hide Evaluate, FirstMet, LocksUntil, NoDeadline;
  }

  /** An `Or` records its latest lock, so it can be met before its unlock time. */
  lemma {:induction false} OrOpensBeforeItsUnlockTime(early: u64, late: u64, context: CommitmentContext)
    requires early < late
    ensures LocksUntil(Or([TimeAfter(early), TimeAfter(late)]), late)
    ensures forall t: u64 :: Evaluate(Or([TimeAfter(early), TimeAfter(late)]), At(context, t)) <==> t >= early
  {
    var cs := [TimeAfter(early), TimeAfter(late)];
    assert cs[1] == TimeAfter(late) && cs[0] == TimeAfter(early);
    forall t: u64 ensures Evaluate(Or(cs), At(context, t)) <==> t >= early {
      assert Evaluate(cs[0], At(context, t)) <==> t >= early;
      assert Evaluate(cs[1], At(context, t)) <==> t >= late;
    }
  }
}
