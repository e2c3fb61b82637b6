/** Repeated replacement attempts against a transaction whose fees are not on record (src/common/transaction.py). */
module Convergence {
  import opened Wrappers
  import opened FeeRules
  import opened Transactions

  /** Where the attempts on one nonce have got to: still trying with a record, accepted, or refused at the ceiling. */
  datatype Chase = Trying(recorded: Option<FeeValue>) | Replaced(fees: FeeValue) | Refused(last: FeeValue)

  /** One run after another, each with its suggested fees; the node decides on each broadcast. */
  function Attempt(policy: Policy, suggestions: seq<FeeValue>, accepts: (nat, FeeValue) -> bool): Chase {
    if suggestions == [] then Trying(None)
    else
      var k := |suggestions| - 1;
      var before := Attempt(policy, suggestions[..k], accepts);
      match before
      case Trying(recorded) =>
        (match Plan(policy, recorded, suggestions[k])
         case None => Refused(recorded.value)
         case Some(fees) => if accepts(k, fees) then Replaced(fees) else Trying(Some(fees)))
      case _ => before
  }

  /**
   * The next attempt is the manager's next submission: from the record the attempts have left, with the
   * node's answer as given, it ends in a refusal, an accepted replacement, or a new record.
   */
  lemma AttemptIsSubmission(policy: Policy, suggestions: seq<FeeValue>, accepts: (nat, FeeValue) -> bool, suggested: FeeValue, nonce: nat,
                            records: map<nat, FeeValue>, reply: Reply, records': map<nat, FeeValue>, sent: seq<Broadcast>, outcome: Outcome)
    requires Attempt(policy, suggestions, accepts) == Trying(Lookup(records, nonce))
    requires HighPriorityEnds(policy, records, nonce, Some(suggested), reply, records', sent, outcome)
    requires sent != [] ==>
      sent[0].fees.Some? && reply == if accepts(|suggestions|, sent[0].fees.value) then Accepted else FeeTooLow
    ensures var next := Attempt(policy, suggestions + [suggested], accepts);
      && (sent == [] ==> nonce in records && next == Refused(records[nonce]))
      && (outcome == Sent ==> nonce in records' && next == Replaced(records'[nonce]))
      && (sent != [] && outcome != Sent ==> next == Trying(Lookup(records', nonce)))
  {
    assert (suggestions + [suggested])[..|suggestions|] == suggestions;
  }

  function Pow(b: nat, e: nat): nat {
    if e == 0 then 1 else b * Pow(b, e - 1)
  }

  /** v has grown from a by at least 10% in each of k steps: 11^k * a <= 10^k * v. */
  ghost predicate Grown(k: nat, a: nat, v: nat) {
    Pow(11, k) * a <= Pow(10, k) * v
  }

  lemma GrowStep(k: nat, a: nat, v: nat, w: nat)
    requires Grown(k, a, v) && 11 * v <= 10 * w
    ensures Grown(k + 1, a, w)
  {
    var x, y := Pow(11, k), Pow(10, k);
    assert 11 * (x * a) == Pow(11, k + 1) * a;
    assert y * (11 * v) <= y * (10 * w);
    assert y * (10 * w) == Pow(10, k + 1) * w;
    assert 11 * (y * v) == y * (11 * v);
  }

  lemma GrownNothing(a: nat)
    ensures Grown(0, a, a)
  {
  }

  lemma GrownWithin(k: nat, a: nat, v: nat, w: nat)
    requires Grown(k, a, v) && v <= w
    ensures Grown(k, a, w)
  {
    assert Pow(10, k) * v <= Pow(10, k) * w;
  }

  /** The fees v are within the ceiling, and both have grown from first by at least 10% in each of k steps. */
  ghost predicate Risen(max: nat, k: nat, first: FeeValue, v: FeeValue) {
    && Within(v, max)
    && Grown(k, first.feePerGas, v.feePerGas)
    && Grown(k, first.priorityFeePerGas, v.priorityFeePerGas)
  }

  /** One more replacement. */
  lemma RiseOnce(policy: Policy, k: nat, first: FeeValue, v: FeeValue, w: FeeValue)
    requires Threshold(policy.need) && Risen(policy.maxFeePerGas, k, first, v)
    requires Replaces(policy.need, w, v) && Within(w, policy.maxFeePerGas)
    ensures Risen(policy.maxFeePerGas, k + 1, first, w)
  {
    ReplacementRises(policy.need, w, v);
    hide Grown, Threshold, Replaces;
    GrowStep(k, first.feePerGas, v.feePerGas, w.feePerGas);
    GrowStep(k, first.priorityFeePerGas, v.priorityFeePerGas, w.priorityFeePerGas);
  }

  lemma RisenStep(policy: Policy, k: nat, first: FeeValue, v: FeeValue, suggested: FeeValue)
    requires Threshold(policy.need) && Risen(policy.maxFeePerGas, k, first, v)
    ensures var plan := Plan(policy, Some(v), suggested);
      plan.Some? ==> Risen(policy.maxFeePerGas, k + 1, first, plan.value)
  {
    hide Plan;
    PlanSpec(policy, Some(v), suggested);
    if Plan(policy, Some(v), suggested).Some? {
      RiseOnce(policy, k, first, v, Plan(policy, Some(v), suggested).value);
    }
  }

  lemma RisenFirst(max: nat, suggested: FeeValue)
    ensures Risen(max, 0, Capped(suggested, max), Capped(suggested, max))
  {
    GrownNothing(Capped(suggested, max).feePerGas);
    GrownNothing(Capped(suggested, max).priorityFeePerGas);
  }

  /** While it is still trying, the record has risen in every run after the first. */
  lemma {:induction false} FeesGrow(policy: Policy, suggestions: seq<FeeValue>, accepts: (nat, FeeValue) -> bool)
    requires Threshold(policy.need) && suggestions != []
    requires Attempt(policy, suggestions, accepts).Trying?
    ensures var recorded := Attempt(policy, suggestions, accepts).recorded;
      recorded.Some? && Risen(policy.maxFeePerGas, |suggestions| - 1, Capped(suggestions[0], policy.maxFeePerGas), recorded.value)
    decreases |suggestions|
  {
    hide Risen, Threshold;
    var k := |suggestions| - 1;
    var init, max := suggestions[..k], policy.maxFeePerGas;
    if k == 0 {
      assert Attempt(policy, init, accepts) == Trying(None);
      RisenFirst(max, suggestions[0]);
    } else {
      hide Plan, Capped;
      assert init[0] == suggestions[0];
      FeesGrow(policy, init, accepts);
      RisenStep(policy, k - 1, Capped(suggestions[0], max), Attempt(policy, init, accepts).recorded.value, suggestions[k]);
    }
  }

  /** A replacement raises both fees by at least 10%. */
  lemma ReplacementRises(need: nat -> nat, v: FeeValue, prev: FeeValue)
    requires Threshold(need) && Replaces(need, v, prev)
    ensures 11 * prev.feePerGas <= 10 * v.feePerGas && 11 * prev.priorityFeePerGas <= 10 * v.priorityFeePerGas
  {
    assert 11 * prev.feePerGas <= 10 * need(prev.feePerGas);
    assert 11 * prev.priorityFeePerGas <= 10 * need(prev.priorityFeePerGas);
  }

  /** So k re-attempts are possible only while 11^k times the first fee is within 10^k times the ceiling. */
  lemma ReattemptsBounded(policy: Policy, suggestions: seq<FeeValue>, accepts: (nat, FeeValue) -> bool)
    requires Threshold(policy.need) && suggestions != []
    requires Attempt(policy, suggestions, accepts).Trying?
    ensures Grown(|suggestions| - 1, Min(suggestions[0].feePerGas, policy.maxFeePerGas), policy.maxFeePerGas)
  {
    var k := |suggestions| - 1;
    FeesGrow(policy, suggestions, accepts);
    hide Grown;
    var fee := Attempt(policy, suggestions, accepts).recorded.value.feePerGas;
    GrownWithin(k, Min(suggestions[0].feePerGas, policy.maxFeePerGas), fee, policy.maxFeePerGas);
  }

  /** From the first run with a suggested fee of at least 1 on, every further run adds at least 1 to the recorded fee. */
  lemma {:induction false} FeesCount(policy: Policy, suggestions: seq<FeeValue>, accepts: (nat, FeeValue) -> bool, i: nat)
    requires Threshold(policy.need) && i < |suggestions|
    requires suggestions[i].feePerGas >= 1 && policy.maxFeePerGas >= 1
    requires Attempt(policy, suggestions, accepts).Trying?
    ensures var recorded := Attempt(policy, suggestions, accepts).recorded;
      recorded.Some? && |suggestions| - i <= recorded.value.feePerGas <= policy.maxFeePerGas
    decreases |suggestions|
  {
    hide *;
    var k := |suggestions| - 1;
    var init := suggestions[..k];
    StillTrying(policy, suggestions, accepts);
    RefusedAtCeiling(policy, init, accepts);
    PlanRises(policy, Attempt(policy, init, accepts).recorded, suggestions[k]);
    if i < k {
      assert init[i] == suggestions[i];
      FeesCount(policy, init, accepts, i);
    }
  }

  lemma StillTrying(policy: Policy, suggestions: seq<FeeValue>, accepts: (nat, FeeValue) -> bool)
    requires suggestions != [] && Attempt(policy, suggestions, accepts).Trying?
    ensures var k := |suggestions| - 1;
      var before := Attempt(policy, suggestions[..k], accepts);
      before.Trying? && Plan(policy, before.recorded, suggestions[k]) == Attempt(policy, suggestions, accepts).recorded != None
  {
    hide Plan;
  }

  /** A plan takes at least the suggested fee under the ceiling, and at least 1 more than a positive record. */
  lemma PlanRises(policy: Policy, recorded: Option<FeeValue>, suggested: FeeValue)
    requires Threshold(policy.need) && (recorded.Some? ==> Within(recorded.value, policy.maxFeePerGas))
    ensures var plan := Plan(policy, recorded, suggested);
      plan.Some? ==>
        && plan.value.feePerGas <= policy.maxFeePerGas
        && (plan.value.feePerGas >= suggested.feePerGas || plan.value.feePerGas >= policy.maxFeePerGas)
        && (recorded.Some? && recorded.value.feePerGas >= 1 ==> plan.value.feePerGas > recorded.value.feePerGas)
  {
    PlanSpec(policy, recorded, suggested);
    if recorded.Some? && Plan(policy, recorded, suggested).Some? {
      ReplacementRises(policy.need, Plan(policy, recorded, suggested).value, recorded.value);
    }
  }

  /** Whatever the node answers, the attempts end, accepted or refused, within a bounded number of runs. */
  lemma AttemptsEnd(policy: Policy, suggestions: seq<FeeValue>, accepts: (nat, FeeValue) -> bool, i: nat)
    requires Threshold(policy.need) && i + policy.maxFeePerGas < |suggestions|
    requires suggestions[i].feePerGas >= 1 && policy.maxFeePerGas >= 1
    ensures !Attempt(policy, suggestions, accepts).Trying?
  {
    if Attempt(policy, suggestions, accepts).Trying? {
      FeesCount(policy, suggestions, accepts, i);
    }
  }

  /** With fees that are zero under the ceiling in every run nothing ever rises. */
  lemma {:induction false} ZeroFeesNeverEnd(policy: Policy, suggestions: seq<FeeValue>, accepts: (nat, FeeValue) -> bool)
    requires Threshold(policy.need) && forall k :: 0 <= k < |suggestions| ==> Min(suggestions[k].feePerGas, policy.maxFeePerGas) == 0
    requires forall k: nat, v :: !accepts(k, v)
    ensures Attempt(policy, suggestions, accepts) == Trying(if suggestions == [] then None else Some(FeeValue(0, 0)))
  {
    if suggestions != [] {
      ZeroFeesNeverEnd(policy, suggestions[..|suggestions| - 1], accepts);
      assert policy.need(0) <= Bump(0);
    }
  }

  function FirstOf(suggested: nat -> FeeValue, n: nat): (s: seq<FeeValue>)
    ensures |s| == n && forall i: nat :: i < n ==> s[i] == suggested(i)
  {
    if n == 0 then [] else FirstOf(suggested, n - 1) + [suggested(n - 1)]
  }

  /**
   * Against a node that accepts nothing, an endless series of runs comes to an end exactly when the
   * ceiling is positive and some run is given a positive fee.
   */
  lemma EndsExactly(policy: Policy, suggested: nat -> FeeValue, accepts: (nat, FeeValue) -> bool)
    requires Threshold(policy.need) && forall k: nat, v :: !accepts(k, v)
    ensures (exists n: nat :: !Attempt(policy, FirstOf(suggested, n), accepts).Trying?)
      <==> policy.maxFeePerGas >= 1 && exists i: nat :: suggested(i).feePerGas >= 1
  {
    if policy.maxFeePerGas >= 1 && exists i: nat :: suggested(i).feePerGas >= 1 {
      var i: nat :| suggested(i).feePerGas >= 1;
      var n := i + policy.maxFeePerGas + 1;
      AttemptsEnd(policy, FirstOf(suggested, n), accepts, i);
      assert !Attempt(policy, FirstOf(suggested, n), accepts).Trying?;
    } else {
      forall n: nat ensures Attempt(policy, FirstOf(suggested, n), accepts).Trying? {
        ZeroFeesNeverEnd(policy, FirstOf(suggested, n), accepts);
      }
    }
  }

  /** The attempts stop at the ceiling exactly on a record whose threshold lies above it. */
  lemma {:induction false} RefusedAtCeiling(policy: Policy, suggestions: seq<FeeValue>, accepts: (nat, FeeValue) -> bool)
    requires Threshold(policy.need)
    ensures var chase := Attempt(policy, suggestions, accepts);
      && (chase.Refused? ==> Within(chase.last, policy.maxFeePerGas) && policy.need(chase.last.feePerGas) > policy.maxFeePerGas)
      && (chase.Trying? && chase.recorded.Some? ==> Within(chase.recorded.value, policy.maxFeePerGas))
    decreases |suggestions|
  {
    if suggestions != [] {
      var k := |suggestions| - 1;
      RefusedAtCeiling(policy, suggestions[..k], accepts);
      var before := Attempt(policy, suggestions[..k], accepts);
      if before.Trying? {
        PlanSpec(policy, before.recorded, suggestions[k]);
      }
    }
  }

  /** Some fees within the ceiling would replace the stuck transaction. */
  ghost predicate Replaceable(policy: Policy, stuck: FeeValue) {
    exists v :: Within(v, policy.maxFeePerGas) && Replaces(policy.need, v, stuck)
  }

  lemma ReplaceableExact(policy: Policy, stuck: FeeValue)
    requires Threshold(policy.need) && stuck.priorityFeePerGas <= stuck.feePerGas
    ensures Replaceable(policy, stuck) <==> policy.need(stuck.feePerGas) <= policy.maxFeePerGas
  {
    var top := FeeValue(policy.maxFeePerGas, policy.maxFeePerGas);
    assert policy.need(stuck.priorityFeePerGas) <= policy.need(stuck.feePerGas);
    assert policy.need(stuck.feePerGas) <= policy.maxFeePerGas ==> Within(top, policy.maxFeePerGas) && Replaces(policy.need, top, stuck);
  }

  /**
   * The record made after a rejection is not the fee of the stuck transaction. A run refuses although
   * fees within the ceiling would replace what is stuck exactly when the ceiling lies between the two
   * thresholds, whatever fees are suggested.
   */
  lemma PrematureRefusalExact(policy: Policy, recorded: FeeValue, suggested: FeeValue, stuck: FeeValue)
    requires Threshold(policy.need) && Within(recorded, policy.maxFeePerGas) && stuck.priorityFeePerGas <= stuck.feePerGas
    ensures Plan(policy, Some(recorded), suggested) == None && Replaceable(policy, stuck)
      <==> policy.need(stuck.feePerGas) <= policy.maxFeePerGas < policy.need(recorded.feePerGas)
  {
    hide Plan, Replaceable;
    PlanSpec(policy, Some(recorded), suggested);
    ReplaceableExact(policy, stuck);
  }

  /** The same for the next run of any series of attempts, from the record those before it left. */
  lemma NextRunRefusesPrematurely(policy: Policy, suggestions: seq<FeeValue>, accepts: (nat, FeeValue) -> bool,
                                  recorded: FeeValue, suggested: FeeValue, stuck: FeeValue)
    requires Threshold(policy.need) && stuck.priorityFeePerGas <= stuck.feePerGas
    requires Attempt(policy, suggestions, accepts) == Trying(Some(recorded))
    ensures Attempt(policy, suggestions + [suggested], accepts).Refused? && Replaceable(policy, stuck)
      <==> policy.need(stuck.feePerGas) <= policy.maxFeePerGas < policy.need(recorded.feePerGas)
  {
    hide Plan, Replaceable, Threshold;
    RefusedAtCeiling(policy, suggestions, accepts);
    PrematureRefusalExact(policy, recorded, suggested, stuck);
    assert (suggestions + [suggested])[..|suggestions|] == suggestions;
  }

  /** After any series that was refused: the refusal is premature exactly when the stuck fee's own threshold is within the ceiling. */
  lemma RefusedPrematurelyExact(policy: Policy, suggestions: seq<FeeValue>, accepts: (nat, FeeValue) -> bool,
                                last: FeeValue, stuck: FeeValue)
    requires Threshold(policy.need) && stuck.priorityFeePerGas <= stuck.feePerGas
    requires Attempt(policy, suggestions, accepts) == Refused(last)
    ensures Replaceable(policy, stuck) <==> policy.need(stuck.feePerGas) <= policy.maxFeePerGas < policy.need(last.feePerGas)
  {
    hide Replaceable, Attempt, Threshold;
    RefusedAtCeiling(policy, suggestions, accepts);
    ReplaceableExact(policy, stuck);
  }

  lemma RefusalCanBePremature()
    ensures var policy := Policy(100, TenPercentMore);
      var stuck := FeeValue(90, 90);
      var accepts := (k: nat, v: FeeValue) => Replaces(TenPercentMore, v, stuck);
      && Attempt(policy, [FeeValue(95, 95), FeeValue(95, 95)], accepts) == Refused(FeeValue(95, 95))
      && Replaces(TenPercentMore, FeeValue(100, 100), stuck)
  {
    var policy := Policy(100, TenPercentMore);
    var accepts := (k: nat, v: FeeValue) => Replaces(TenPercentMore, v, FeeValue(90, 90));
    var v := FeeValue(95, 95);
    assert [v, v][..1] == [v] && [v][..0] == [];
    assert Attempt(policy, [v], accepts) == Trying(Some(v));
  }
}
