/** EIP-1559 fees under a ceiling, and when one pair of fees may replace another (Fees, src/common/transaction.py). */
module FeeRules {
  import opened Wrappers

  datatype FeeValue = FeeValue(feePerGas: nat, priorityFeePerGas: nat)

  /** The ceiling, and the smallest fee that replaces a given one. */
  datatype Policy = Policy(maxFeePerGas: nat, need: nat -> nat)

  function Min(a: nat, b: nat): nat {
    if a <= b then a else b
  }

  function Max(a: nat, b: nat): nat {
    if a <= b then b else a
  }

  /** The ceiling of 1.125 * value. */
  function Bump(value: nat): (r: nat)
    ensures 9 * value <= 8 * r < 9 * value + 8
  {
    (9 * value + 7) / 8
  }

  /** The ceiling of 1.1 * value, with the ratio taken exactly. */
  function TenPercentMore(value: nat): (r: nat)
    ensures 11 * value <= 10 * r < 11 * value + 10
  {
    (11 * value + 9) / 10
  }

  /** What is used of a replacement threshold: monotone, at least 10% more, and cleared by a bump. */
  ghost predicate Threshold(need: nat -> nat) {
    && (forall v: nat, w: nat :: v <= w ==> need(v) <= need(w))
    && (forall v: nat :: 11 * v <= 10 * need(v))
    && (forall v: nat :: need(v) <= Bump(v))
  }

  /**
   * The threshold as it is computed: 1.1 is not a double, so the product with a multiple of ten can
   * come out above the exact value and be rounded up to the next integer.
   */
  ghost predicate TenPercentRounded(need: nat -> nat) {
    forall v: nat ::
      if v > 0 && v % 10 == 0 then TenPercentMore(v) <= need(v) <= TenPercentMore(v) + 1 else need(v) == TenPercentMore(v)
  }

  /** So computed it is a threshold, wherever it rounds up. */
  lemma TenPercentIsThreshold(need: nat -> nat)
    requires TenPercentRounded(need)
    ensures Threshold(need)
  {
    forall v: nat, w: nat | v <= w ensures need(v) <= need(w) {
      assert v < w ==> TenPercentMore(v) + 1 <= TenPercentMore(w);
    }
    forall v: nat ensures 11 * v <= 10 * need(v) && need(v) <= Bump(v) { }
  }

  function Capped(v: FeeValue, max: nat): FeeValue {
    var fee := Min(v.feePerGas, max);
    FeeValue(fee, Min(v.priorityFeePerGas, fee))
  }

  function Bumped(v: FeeValue, max: nat): FeeValue {
    Capped(FeeValue(Bump(v.feePerGas), Bump(v.priorityFeePerGas)), max)
  }

  function Larger(v: FeeValue, w: FeeValue, max: nat): FeeValue {
    Capped(FeeValue(Max(v.feePerGas, w.feePerGas), Max(v.priorityFeePerGas, w.priorityFeePerGas)), max)
  }

  /** Both fees clear the threshold over the previous ones. */
  predicate Replaces(need: nat -> nat, v: FeeValue, prev: FeeValue) {
    v.feePerGas >= need(prev.feePerGas) && v.priorityFeePerGas >= need(prev.priorityFeePerGas)
  }

  /** The two invariants of Fees: the priority fee within the fee, the fee within the ceiling. */
  predicate Within(v: FeeValue, max: nat) {
    v.priorityFeePerGas <= v.feePerGas <= max
  }

  /** Capping establishes the invariants, changes nothing that has them, and lowers no more than it must. */
  lemma CappedIsLargest(v: FeeValue, w: FeeValue, max: nat)
    ensures Within(Capped(v, max), max)
    ensures Within(v, max) <==> Capped(v, max) == v
    ensures Within(w, max) && w.feePerGas <= v.feePerGas && w.priorityFeePerGas <= v.priorityFeePerGas ==>
      w.feePerGas <= Capped(v, max).feePerGas && w.priorityFeePerGas <= Capped(v, max).priorityFeePerGas
  {
  }

  /** The replacement that is tried over a recorded transaction. */
  function Replacement(max: nat, suggested: FeeValue, prev: FeeValue): FeeValue {
    Larger(Capped(suggested, max), Bumped(prev, max), max)
  }

  /**
   * A replacement is refused exactly when the threshold over the previous fee lies above the
   * ceiling: the priority fee and the suggested fees never decide, although capping is applied twice.
   */
  lemma RefusalExact(policy: Policy, suggested: FeeValue, prev: FeeValue)
    requires Threshold(policy.need) && Within(prev, policy.maxFeePerGas)
    ensures Replaces(policy.need, Replacement(policy.maxFeePerGas, suggested, prev), prev)
      <==> policy.need(prev.feePerGas) <= policy.maxFeePerGas
  {
    var need := policy.need;
    assert need(prev.priorityFeePerGas) <= need(prev.feePerGas);
    assert need(prev.feePerGas) <= Bump(prev.feePerGas);
    assert need(prev.priorityFeePerGas) <= Bump(prev.priorityFeePerGas);
  }

  /**
   * The fees to broadcast for a nonce, given the fees recorded for it; None when no replacement
   * clears the threshold.
   */
  function Plan(policy: Policy, recorded: Option<FeeValue>, suggested: FeeValue): Option<FeeValue> {
    var max := policy.maxFeePerGas;
    match recorded
    case None => Some(Capped(suggested, max))
    case Some(params) =>
      var prev := Capped(params, max);
      var fees := Replacement(max, suggested, prev);
      if Replaces(policy.need, fees, prev) then Some(fees) else None
  }

  /** What a plan promises over a record made earlier by the same rules. */
  lemma PlanSpec(policy: Policy, recorded: Option<FeeValue>, suggested: FeeValue)
    requires Threshold(policy.need) && (recorded.Some? ==> Within(recorded.value, policy.maxFeePerGas))
    ensures var plan := Plan(policy, recorded, suggested);
      && (plan == None <==> recorded.Some? && policy.need(recorded.value.feePerGas) > policy.maxFeePerGas)
      && (plan.Some? ==> Within(plan.value, policy.maxFeePerGas))
      && (plan.Some? && recorded.Some? ==> Replaces(policy.need, plan.value, recorded.value))
  {
    if recorded.Some? {
      CappedIsLargest(recorded.value, recorded.value, policy.maxFeePerGas);
      RefusalExact(policy, suggested, recorded.value);
    }
  }

  /**
   * One fee of a replacement: no less than the suggestion and than the bump of the previous fee, both
   * under the ceiling, and one of the two.
   */
  predicate LargerOf(fee: nat, suggested: nat, bumped: nat) {
    fee >= suggested && fee >= bumped && (fee == suggested || fee == bumped)
  }

  /** Which fees are planned: both the larger of suggestion and bump, or without a record the suggestion. */
  lemma PlanFees(policy: Policy, recorded: Option<FeeValue>, suggested: FeeValue)
    requires recorded.Some? ==> Within(recorded.value, policy.maxFeePerGas)
    ensures var max, plan := policy.maxFeePerGas, Plan(policy, recorded, suggested);
      && (recorded == None ==> plan == Some(Capped(suggested, max)))
      && (recorded == None && Within(suggested, max) ==> plan == Some(suggested))
      && (recorded.Some? && plan.Some? ==>
            var prev := recorded.value;
            var s, b := Capped(suggested, max), Capped(FeeValue(Bump(prev.feePerGas), Bump(prev.priorityFeePerGas)), max);
            && LargerOf(plan.value.feePerGas, s.feePerGas, b.feePerGas)
            && LargerOf(plan.value.priorityFeePerGas, s.priorityFeePerGas, b.priorityFeePerGas))
  {
    if recorded.Some? {
      CappedIsLargest(recorded.value, recorded.value, policy.maxFeePerGas);
    }
  }

  /** The source's fee object; the ceiling is fixed at creation. */
  class Fees {
    var feePerGas: nat
    var priorityFeePerGas: nat
    const maxFeePerGas: nat

    constructor (feePerGas: nat, priorityFeePerGas: nat, maxFeePerGas: nat)
      ensures this.maxFeePerGas == maxFeePerGas
      ensures Value() == Capped(FeeValue(feePerGas, priorityFeePerGas), maxFeePerGas) && Within(Value(), maxFeePerGas)
    {
      this.maxFeePerGas := maxFeePerGas;
      this.feePerGas := feePerGas;
      this.priorityFeePerGas := priorityFeePerGas;
      new;
      Cap();
    }

    function Value(): FeeValue
      reads this
    {
      FeeValue(feePerGas, priorityFeePerGas)
    }

    method Cap()
      modifies this
      ensures Within(Value(), maxFeePerGas)
      ensures Within(old(Value()), maxFeePerGas) ==> Value() == old(Value())
      ensures Value() == Capped(old(Value()), maxFeePerGas)
    {
      feePerGas := Min(feePerGas, maxFeePerGas);
      priorityFeePerGas := Min(priorityFeePerGas, feePerGas);
    }

    method BumpFees() returns (r: Fees)
      ensures fresh(r) && r.maxFeePerGas == maxFeePerGas && Within(r.Value(), maxFeePerGas)
      ensures r.Value() == Bumped(Value(), maxFeePerGas)
    {
      r := new Fees(Bump(feePerGas), Bump(priorityFeePerGas), maxFeePerGas);
    }

    method MaxWith(other: Fees) returns (r: Fees)
      ensures fresh(r) && r.maxFeePerGas == maxFeePerGas && Within(r.Value(), maxFeePerGas)
      ensures Within(Value(), maxFeePerGas) && Within(other.Value(), maxFeePerGas) ==>
        r.Value() == FeeValue(Max(feePerGas, other.feePerGas), Max(priorityFeePerGas, other.priorityFeePerGas))
      ensures r.Value() == Larger(Value(), other.Value(), maxFeePerGas)
    {
      r := new Fees(Max(feePerGas, other.feePerGas), Max(priorityFeePerGas, other.priorityFeePerGas), maxFeePerGas);
    }

    predicate ReplacesFees(need: nat -> nat, prev: Fees)
      reads this, prev
    {
      feePerGas >= need(prev.feePerGas) && priorityFeePerGas >= need(prev.priorityFeePerGas)
    }
  }
}
