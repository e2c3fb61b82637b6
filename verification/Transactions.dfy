/** Submission of wallet transactions (TransactionManager, src/common/transaction.py). */
module Transactions {
  import opened Wrappers
  import opened FeeRules

  /** The node's answer to a broadcast: a hash, a rejection that a higher fee can clear, or any other error. */
  datatype Reply = Accepted | FeeTooLow | OtherError

  /** How the wait for the receipt ends; WaitFailed is any error other than the timeout. */
  datatype Receipt = Succeeded | Reverted | TimedOut | WaitFailed

  /** A broadcast: its nonce, and its fees unless the node's default gas is used. */
  datatype Broadcast = Broadcast(nonce: nat, fees: Option<FeeValue>)

  /**
   * What one call meets: whether the simulation and the nonce reads succeed, the fees of the gas
   * manager (None if it raises), the answer reply(k) to its k-th broadcast, and the receipt.
   */
  datatype Env = Env(simulates: bool, readsNonces: bool, latest: nat, pending: nat, suggested: Option<FeeValue>,
                     reply: nat -> Reply, receipt: Receipt)

  datatype Outcome = Sent | NotSent | Failed

  datatype Result = Confirmed | Nothing | Raised

  function Lookup(records: map<nat, FeeValue>, nonce: nat): Option<FeeValue> {
    if nonce in records then Some(records[nonce]) else None
  }

  /** The records of nonces that may still be pending. */
  function Forget(records: map<nat, FeeValue>, latest: nat): map<nat, FeeValue> {
    map n | n in records && n >= latest :: records[n]
  }

  /** How often a range over the configured number of attempts runs. */
  function Times(attempts: int): nat {
    if attempts < 0 then 0 else attempts
  }

  /** The default-gas attempts end after k broadcasts: each one before was rejected for its fee. */
  ghost predicate DefaultGasEnds(reply: nat -> Reply, attempts: int, k: nat, outcome: Outcome) {
    && (forall i :: 0 <= i < k - 1 ==> reply(i) == FeeTooLow)
    && match outcome
       case Sent => 0 < k <= attempts && reply(k - 1) == Accepted
       case Failed => 0 < k <= attempts && reply(k - 1) == OtherError
       case NotSent => k == Times(attempts) && (k > 0 ==> reply(k - 1) == FeeTooLow)
  }

  /** The effect of one high-priority submission, from the records before it. */
  ghost predicate HighPriorityEnds(policy: Policy, records: map<nat, FeeValue>, nonce: nat, suggested: Option<FeeValue>, reply: Reply,
                                   records': map<nat, FeeValue>, sent: seq<Broadcast>, outcome: Outcome) {
    if suggested == None then records' == records && sent == [] && outcome == Failed
    else
      match Plan(policy, Lookup(records, nonce), suggested.value)
      case None => records' == records && sent == [] && outcome == NotSent
      case Some(fees) =>
        && sent == [Broadcast(nonce, Some(fees))]
        && records' == (if reply == OtherError then records else records[nonce := fees])
        && outcome == match reply case Accepted => Sent case FeeTooLow => NotSent case OtherError => Failed
  }

  function ResultOf(outcome: Outcome, receipt: Receipt): Result {
    match outcome
    case Failed => Raised
    case NotSent => Nothing
    case Sent => if receipt == Succeeded then Confirmed else if receipt == WaitFailed then Raised else Nothing
  }

  /** k default-gas broadcasts at a nonce. */
  function DefaultBroadcasts(nonce: nat, k: nat): seq<Broadcast> {
    seq(k, i => Broadcast(nonce, None))
  }

  /** The effect of one call on the records, its broadcasts and its result. */
  ghost predicate Called(policy: Policy, attempts: int, records: map<nat, FeeValue>, env: Env, highPriority: bool, estimateGas: bool,
                         records': map<nat, FeeValue>, sent: seq<Broadcast>, result: Result) {
    if (estimateGas && !env.simulates) || !env.readsNonces then records' == records && sent == [] && result == Raised
    else
      var kept := Forget(records, env.latest);
      if env.pending > env.latest || highPriority then
        exists outcome ::
          && HighPriorityEnds(policy, kept, env.latest, env.suggested, env.reply(0), records', sent, outcome)
          && result == ResultOf(outcome, env.receipt)
      else
        exists k: nat, outcome ::
          DefaultGasEnds(env.reply, attempts, k, outcome) && AfterDefaultGas(policy, kept, env, k, outcome, records', sent, result)
  }

  /** What follows k default-gas broadcasts: nothing more, or the escalation to high-priority fees. */
  ghost predicate AfterDefaultGas(policy: Policy, kept: map<nat, FeeValue>, env: Env, k: nat, outcome: Outcome,
                                  records': map<nat, FeeValue>, sent: seq<Broadcast>, result: Result) {
    if outcome != NotSent then
      records' == kept && sent == DefaultBroadcasts(env.latest, k) && result == ResultOf(outcome, env.receipt)
    else
      exists more, last ::
        && HighPriorityEnds(policy, kept, env.latest, env.suggested, env.reply(k), records', more, last)
        && sent == DefaultBroadcasts(env.latest, k) + more && result == ResultOf(last, env.receipt)
  }

  class TransactionManager {
    const policy: Policy
    const attemptsWithDefaultGas: int
    var records: map<nat, FeeValue>

    constructor (policy: Policy, attemptsWithDefaultGas: int)
      ensures this.policy == policy && this.attemptsWithDefaultGas == attemptsWithDefaultGas && records == map[]
    {
      this.policy, this.attemptsWithDefaultGas, records := policy, attemptsWithDefaultGas, map[];
    }

    method SubmitHighPriority(nonce: nat, suggested: Option<FeeValue>, reply: Reply) returns (outcome: Outcome, sent: seq<Broadcast>)
      modifies this
      ensures HighPriorityEnds(policy, old(records), nonce, suggested, reply, records, sent, outcome)
    {
      if suggested == None {
        return Failed, [];
      }
      var max := policy.maxFeePerGas;
      var fees := new Fees(suggested.value.feePerGas, suggested.value.priorityFeePerGas, max);
      if nonce in records {
        var prevFees := new Fees(records[nonce].feePerGas, records[nonce].priorityFeePerGas, max);
        var bumped := prevFees.BumpFees();
        fees := fees.MaxWith(bumped);
        if !fees.ReplacesFees(policy.need, prevFees) {
          return NotSent, [];
        }
      }
      var params := fees.Value();
      sent := [Broadcast(nonce, Some(params))];
      match reply {
        case OtherError =>
          return Failed, sent;
        case FeeTooLow =>
          records := records[nonce := params];
          return NotSent, sent;
        case Accepted =>
          records := records[nonce := params];
          return Sent, sent;
      }
    }

    method SubmitDefaultGas(nonce: nat, reply: nat -> Reply) returns (outcome: Outcome, sent: seq<Broadcast>)
      ensures DefaultGasEnds(reply, attemptsWithDefaultGas, |sent|, outcome)
      ensures sent == DefaultBroadcasts(nonce, |sent|)
    {
      sent := [];
      var i := 0;
      while i < attemptsWithDefaultGas
        invariant 0 <= i <= Times(attemptsWithDefaultGas) && |sent| == i
        invariant sent == DefaultBroadcasts(nonce, i)
        invariant forall j :: 0 <= j < i ==> reply(j) == FeeTooLow
      {
        sent := sent + [Broadcast(nonce, None)];
        match reply(i) {
          case Accepted => return Sent, sent;
          case OtherError => return Failed, sent;
          case FeeTooLow =>
        }
        i := i + 1;
      }
      return NotSent, sent;
    }

    method Transact(env: Env, highPriority: bool, estimateGas: bool) returns (result: Result, sent: seq<Broadcast>)
      modifies this
      ensures Called(policy, attemptsWithDefaultGas, old(records), env, highPriority, estimateGas, records, sent, result)
    {
      if estimateGas && !env.simulates {
        return Raised, [];
      }
      if !env.readsNonces {
        return Raised, [];
      }
      var latestNonce := env.latest;
      records := Forget(records, latestNonce);
      var outcome;
      if env.pending > latestNonce || highPriority {
        outcome, sent := SubmitHighPriority(latestNonce, env.suggested, env.reply(0));
      } else {
        outcome, sent := SubmitDefaultGas(latestNonce, env.reply);
        ghost var k := |sent|;
        assert DefaultGasEnds(env.reply, attemptsWithDefaultGas, k, outcome);
        if outcome == NotSent {
          var more;
          outcome, more := SubmitHighPriority(latestNonce, env.suggested, env.reply(|sent|));
          sent := sent + more;
        }
      }
      result := ResultOf(outcome, env.receipt);
    }
  }

  // ---- what every call keeps

  /** The records a process can have: at most one, made by these rules, for a nonce not above the confirmed count. */
  ghost predicate Kept(policy: Policy, records: map<nat, FeeValue>, latest: nat) {
    && (forall m, n :: m in records && n in records ==> m == n)
    && (forall n :: n in records ==> n <= latest && Within(records[n], policy.maxFeePerGas))
  }

  lemma HighPriorityKeeps(policy: Policy, records: map<nat, FeeValue>, nonce: nat, suggested: Option<FeeValue>, reply: Reply,
                          records': map<nat, FeeValue>, sent: seq<Broadcast>, outcome: Outcome)
    requires Threshold(policy.need) && Kept(policy, records, nonce) && forall n :: n in records ==> n == nonce
    requires HighPriorityEnds(policy, records, nonce, suggested, reply, records', sent, outcome)
    ensures Kept(policy, records', nonce) && forall n :: n in records' ==> n == nonce
    ensures nonce in records ==> nonce in records'
    ensures nonce in records ==> (records'[nonce] == records[nonce] || Replaces(policy.need, records'[nonce], records[nonce]))
    ensures |sent| <= 1 && forall b :: b in sent ==> b.nonce == nonce && b.fees.Some? && Within(b.fees.value, policy.maxFeePerGas)
  {
    if suggested.Some? {
      PlanSpec(policy, Lookup(records, nonce), suggested.value);
    }
  }

  /**
   * Every call broadcasts only at the confirmed count, at most once with chosen fees and then within
   * the ceiling; it leaves at most one record, and a record it replaces rises past the threshold.
   */
  lemma CallKeeps(policy: Policy, attempts: int, records: map<nat, FeeValue>, env: Env, highPriority: bool, estimateGas: bool,
                  records': map<nat, FeeValue>, sent: seq<Broadcast>, result: Result)
    requires Threshold(policy.need) && Kept(policy, records, env.latest)
    requires Called(policy, attempts, records, env, highPriority, estimateGas, records', sent, result)
    ensures Kept(policy, records', env.latest)
    ensures forall n :: n in records && n in records' ==> records'[n] == records[n] || Replaces(policy.need, records'[n], records[n])
    ensures forall n :: n in records && n !in records' ==> n < env.latest
    ensures |sent| <= Times(attempts) + 1
    ensures forall k :: 0 <= k < |sent| ==> sent[k].nonce == env.latest
    ensures forall k :: 0 <= k < |sent| && sent[k].fees.Some? ==> k == |sent| - 1 && Within(sent[k].fees.value, policy.maxFeePerGas)
  {
    if !(estimateGas && !env.simulates) && env.readsNonces {
      var kept, n := Forget(records, env.latest), env.latest;
      if env.pending > n || highPriority {
        hide HighPriorityEnds, Threshold;
        var outcome :| HighPriorityEnds(policy, kept, n, env.suggested, env.reply(0), records', sent, outcome)
                    && result == ResultOf(outcome, env.receipt);
        HighPriorityKeeps(policy, kept, n, env.suggested, env.reply(0), records', sent, outcome);
      } else {
        hide HighPriorityEnds, Threshold, AfterDefaultGas;
        var k: nat, outcome :| DefaultGasEnds(env.reply, attempts, k, outcome) && AfterDefaultGas(policy, kept, env, k, outcome, records', sent, result);
        DefaultGasKeeps(policy, kept, env, k, outcome, records', sent, result);
      }
    }
  }

  lemma DefaultGasKeeps(policy: Policy, kept: map<nat, FeeValue>, env: Env, k: nat, outcome: Outcome,
                        records': map<nat, FeeValue>, sent: seq<Broadcast>, result: Result)
    requires Threshold(policy.need) && Kept(policy, kept, env.latest) && forall n :: n in kept ==> n == env.latest
    requires AfterDefaultGas(policy, kept, env, k, outcome, records', sent, result)
    ensures Kept(policy, records', env.latest)
    ensures forall n :: n in kept ==> n in records' && (records'[n] == kept[n] || Replaces(policy.need, records'[n], kept[n]))
    ensures k <= |sent| <= k + (if outcome == NotSent then 1 else 0)
    ensures forall i :: 0 <= i < |sent| ==> sent[i].nonce == env.latest
    ensures forall i :: 0 <= i < |sent| && sent[i].fees.Some? ==> i == |sent| - 1 && Within(sent[i].fees.value, policy.maxFeePerGas)
  {
    if outcome == NotSent {
      hide HighPriorityEnds, Threshold;
      var n := env.latest;
      var more, last :| HighPriorityEnds(policy, kept, n, env.suggested, env.reply(k), records', more, last)
                     && sent == DefaultBroadcasts(n, k) + more && result == ResultOf(last, env.receipt);
      HighPriorityKeeps(policy, kept, n, env.suggested, env.reply(k), records', more, last);
      if more != [] {
        assert more[0] in more;
      }
    }
  }

  // ---- the result

  /** The node's answer to the last broadcast of a call. */
  function LastReply(env: Env, sent: seq<Broadcast>): Option<Reply> {
    if sent == [] then None else Some(env.reply(|sent| - 1))
  }

  /** The call gets to ask the gas manager: it replaces, is urgent, or default gas is rejected to the end. */
  ghost predicate AsksGasManager(attempts: int, env: Env, highPriority: bool) {
    env.pending > env.latest || highPriority || forall k: nat :: k < attempts ==> env.reply(k) == FeeTooLow
  }

  /**
   * A call returns a receipt exactly when its last broadcast was accepted and mined with success, and
   * raises exactly on a failed simulation, read, fee request, broadcast or wait.
   */
  lemma CallResult(policy: Policy, attempts: int, records: map<nat, FeeValue>, env: Env, highPriority: bool, estimateGas: bool,
                   records': map<nat, FeeValue>, sent: seq<Broadcast>, result: Result)
    requires Called(policy, attempts, records, env, highPriority, estimateGas, records', sent, result)
    ensures result == Confirmed <==> LastReply(env, sent) == Some(Accepted) && env.receipt == Succeeded
    ensures result == Raised <==>
      || (estimateGas && !env.simulates) || !env.readsNonces
      || (env.suggested == None && AsksGasManager(attempts, env, highPriority))
      || LastReply(env, sent) == Some(OtherError)
      || (LastReply(env, sent) == Some(Accepted) && env.receipt == WaitFailed)
  {
    hide Plan;
    if !(estimateGas && !env.simulates) && env.readsNonces {
      var kept := Forget(records, env.latest);
      if !(env.pending > env.latest || highPriority) {
        hide HighPriorityEnds, AfterDefaultGas;
        var k: nat, outcome :| DefaultGasEnds(env.reply, attempts, k, outcome)
                            && AfterDefaultGas(policy, kept, env, k, outcome, records', sent, result);
        DefaultGasResult(policy, attempts, kept, env, k, outcome, records', sent, result);
      }
    }
  }

  lemma DefaultGasResult(policy: Policy, attempts: int, kept: map<nat, FeeValue>, env: Env, k: nat, outcome: Outcome,
                         records': map<nat, FeeValue>, sent: seq<Broadcast>, result: Result)
    requires DefaultGasEnds(env.reply, attempts, k, outcome)
    requires AfterDefaultGas(policy, kept, env, k, outcome, records', sent, result)
    ensures result == Confirmed <==> LastReply(env, sent) == Some(Accepted) && env.receipt == Succeeded
    ensures result == Raised <==>
      || (env.suggested == None && forall i: nat :: i < attempts ==> env.reply(i) == FeeTooLow)
      || LastReply(env, sent) == Some(OtherError)
      || (LastReply(env, sent) == Some(Accepted) && env.receipt == WaitFailed)
  {
    hide Plan;
    assert outcome == NotSent <==> forall i: nat :: i < attempts ==> env.reply(i) == FeeTooLow;
  }

  // ---- what a call broadcasts and records, spelled out

  /** The fees a submission broadcasts: those suggested, or over a record the larger of suggestion and bump. */
  lemma BroadcastFees(policy: Policy, records: map<nat, FeeValue>, nonce: nat, suggested: Option<FeeValue>, reply: Reply,
                      records': map<nat, FeeValue>, sent: seq<Broadcast>, outcome: Outcome)
    requires HighPriorityEnds(policy, records, nonce, suggested, reply, records', sent, outcome) && sent != []
    requires nonce in records ==> Within(records[nonce], policy.maxFeePerGas)
    ensures suggested.Some? && |sent| == 1 && sent[0].nonce == nonce && sent[0].fees.Some?
    ensures var max, fees := policy.maxFeePerGas, sent[0].fees.value;
      && (nonce !in records ==> fees == Capped(suggested.value, max))
      && (nonce !in records && Within(suggested.value, max) ==> fees == suggested.value)
      && (nonce in records ==>
            var prev := records[nonce];
            var s, b := Capped(suggested.value, max), Capped(FeeValue(Bump(prev.feePerGas), Bump(prev.priorityFeePerGas)), max);
            && LargerOf(fees.feePerGas, s.feePerGas, b.feePerGas)
            && LargerOf(fees.priorityFeePerGas, s.priorityFeePerGas, b.priorityFeePerGas))
  {
    PlanFees(policy, Lookup(records, nonce), suggested.value);
    hide Plan;
  }

  /** The call gets past the simulation and the nonce reads. */
  predicate Starts(env: Env, estimateGas: bool) {
    (!estimateGas || env.simulates) && env.readsNonces
  }

  /** The fees for the nonce can be planned: the gas manager answers and the record, if any, can be replaced. */
  predicate CanPlan(policy: Policy, records: map<nat, FeeValue>, env: Env) {
    && env.suggested.Some?
    && (env.latest in records ==> Plan(policy, Some(records[env.latest]), env.suggested.value).Some?)
  }

  /** Broadcast k is made: all before it were rejected for their fee, and the one at first can be planned. */
  ghost predicate Makes(policy: Policy, records: map<nat, FeeValue>, env: Env, first: nat, k: nat) {
    && k <= first
    && (forall j :: 0 <= j < k ==> env.reply(j) == FeeTooLow)
    && (k == first ==> CanPlan(policy, records, env))
  }

  /**
   * Which broadcasts a call makes. Without need to replace or hurry, attempt k is made exactly if all
   * before it were rejected for their fee, without fees while k is below the configured number; then,
   * or at once, one more with planned fees, if they can be planned.
   */
  lemma CallBroadcasts(policy: Policy, attempts: int, records: map<nat, FeeValue>, env: Env, highPriority: bool, estimateGas: bool,
                       records': map<nat, FeeValue>, sent: seq<Broadcast>, result: Result)
    requires Called(policy, attempts, records, env, highPriority, estimateGas, records', sent, result)
    ensures var first := if env.pending > env.latest || highPriority then 0 else Times(attempts);
      && (forall k: nat :: k < |sent| <==> Starts(env, estimateGas) && Makes(policy, records, env, first, k))
      && (forall k :: 0 <= k < |sent| ==> sent[k].nonce == env.latest && (sent[k].fees.Some? <==> k == first))
  {
    hide Plan;
    if env.suggested.Some? {
      PlanFees(policy, None, env.suggested.value);
    }
    if Starts(env, estimateGas) {
      var kept := Forget(records, env.latest);
      if !(env.pending > env.latest || highPriority) {
        hide HighPriorityEnds, AfterDefaultGas;
        var k: nat, outcome :| DefaultGasEnds(env.reply, attempts, k, outcome)
                            && AfterDefaultGas(policy, kept, env, k, outcome, records', sent, result);
        DefaultGasBroadcasts(policy, attempts, records, env, k, outcome, records', sent, result);
      }
    }
  }

  lemma DefaultGasBroadcasts(policy: Policy, attempts: int, records: map<nat, FeeValue>, env: Env, d: nat, outcome: Outcome,
                             records': map<nat, FeeValue>, sent: seq<Broadcast>, result: Result)
    requires DefaultGasEnds(env.reply, attempts, d, outcome)
    requires AfterDefaultGas(policy, Forget(records, env.latest), env, d, outcome, records', sent, result)
    ensures forall k: nat :: k < |sent| <==> Makes(policy, records, env, Times(attempts), k)
    ensures forall k :: 0 <= k < |sent| ==> sent[k].nonce == env.latest && (sent[k].fees.Some? <==> k == Times(attempts))
  {
    hide Plan;
    if env.suggested.Some? {
      PlanFees(policy, None, env.suggested.value);
    }
    forall k: nat ensures k < |sent| <==> Makes(policy, records, env, Times(attempts), k) {
      if d <= k && outcome != NotSent {
        assert env.reply(d - 1) != FeeTooLow;
      }
    }
  }

  /** A call's last broadcast has fees and was accepted or rejected for them, which is when they are recorded. */
  predicate Records(env: Env, sent: seq<Broadcast>) {
    sent != [] && sent[|sent| - 1].fees.Some? && env.reply(|sent| - 1) != OtherError
  }

  /** The records after a call: those from the confirmed count on, with the fees of the last broadcast if they count. */
  lemma CallRecords(policy: Policy, attempts: int, records: map<nat, FeeValue>, env: Env, highPriority: bool, estimateGas: bool,
                    records': map<nat, FeeValue>, sent: seq<Broadcast>, result: Result)
    requires Called(policy, attempts, records, env, highPriority, estimateGas, records', sent, result)
    ensures !Starts(env, estimateGas) ==> records' == records && sent == []
    ensures Starts(env, estimateGas) ==> forall n: nat ::
      n in records' <==> (n in records && n >= env.latest) || (n == env.latest && Records(env, sent))
    ensures Starts(env, estimateGas) ==> forall n: nat :: n in records' ==>
      records'[n] == if n == env.latest && Records(env, sent) then sent[|sent| - 1].fees.value else records[n]
  {
    hide Plan;
    if Starts(env, estimateGas) {
      var kept := Forget(records, env.latest);
      if !(env.pending > env.latest || highPriority) {
        hide HighPriorityEnds, AfterDefaultGas;
        var k: nat, outcome :| DefaultGasEnds(env.reply, attempts, k, outcome)
                            && AfterDefaultGas(policy, kept, env, k, outcome, records', sent, result);
        DefaultGasRecords(policy, records, env, k, outcome, records', sent, result);
      }
    }
  }

  lemma DefaultGasRecords(policy: Policy, records: map<nat, FeeValue>, env: Env, d: nat, outcome: Outcome,
                          records': map<nat, FeeValue>, sent: seq<Broadcast>, result: Result)
    requires AfterDefaultGas(policy, Forget(records, env.latest), env, d, outcome, records', sent, result)
    ensures forall n: nat ::
      n in records' <==> (n in records && n >= env.latest) || (n == env.latest && Records(env, sent))
    ensures forall n: nat :: n in records' ==>
      records'[n] == if n == env.latest && Records(env, sent) then sent[|sent| - 1].fees.value else records[n]
  {
    hide Plan;
  }
}
