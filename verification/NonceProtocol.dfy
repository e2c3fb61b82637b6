/**
 * The tasks of one wallet against the node: every interleaving of submissions under the lock with
 * mining, drops, timeouts, late deliveries and restarts (src/common/transaction.py).
 */
module NonceProtocol {
  import opened Wrappers
  import opened FeeRules
  import opened Transactions
  import opened Convergence

  /** Where a task inside the lock is. */
  datatype Pc =
    | Entered(high: bool)
    | HasLatest(high: bool, nonce: nat)
    | DefaultGas(nonce: nat, attempt: nat)
    | HighPriority(nonce: nat)
    | Waiting(nonce: nat)

  /** The lock is free, or held by one task. */
  datatype Lock = Free | Held(task: nat, pc: Pc)

  /** Steps of the lock holder, and of its surroundings. Release covers the receipt, its timeout and any error. */
  datatype Action =
    | Acquire(task: nat, high: bool)
    | Release
    | ReadLatest
    | ReadPending(pending: nat)
    | SendDefault(reply: Reply, lingers: bool)
    | SendHighPriority(suggested: FeeValue, reply: Reply, lingers: bool)
    | Mine
    | Drop(nonce: nat)
    | Deliver(nonce: nat, taken: bool)
    | Restart

  /**
   * latest is the confirmed count, pool the nonces of unconfirmed transactions at the node, wire the
   * nonces of broadcasts whose request failed but may still reach the node.
   */
  datatype State = State(
    latest: nat,
    pool: set<nat>,
    wire: set<nat>,
    lock: Lock,
    records: map<nat, FeeValue>)

  datatype Setup = Setup(policy: Policy, attempts: int)

  /** The transaction count with unconfirmed transactions: the first nonce from latest on that is free. */
  ghost predicate IsPendingCount(s: State, pending: nat) {
    s.latest <= pending && pending !in s.pool && forall n :: s.latest <= n < pending ==> n in s.pool
  }

  /** The node's side of a broadcast: nonces below the confirmed count are never taken. */
  ghost predicate NodeTakes(s: State, nonce: nat, reply: Reply, lingers: bool, pool: set<nat>, wire: set<nat>) {
    match reply
    case Accepted => nonce >= s.latest && pool == s.pool + {nonce} && wire == s.wire
    case FeeTooLow => pool == s.pool && wire == s.wire
    case OtherError => pool == s.pool && wire == if lingers then s.wire + {nonce} else s.wire
  }

  function Goto(s: State, pc: Pc): State
    requires s.lock.Held?
  {
    s.(lock := Held(s.lock.task, pc))
  }

  /** Where a task goes once it knows both counts. */
  function Route(setup: Setup, high: bool, latest: nat, pending: nat): Pc {
    if pending > latest || high || setup.attempts <= 0 then HighPriority(latest) else DefaultGas(latest, 0)
  }

  ghost predicate Next(setup: Setup, s: State, a: Action, s': State) {
    match a
    case Acquire(task, high) =>
      s.lock == Free && s' == s.(lock := Held(task, Entered(high)))
    case Release =>
      s.lock.Held? && s' == s.(lock := Free)
    case ReadLatest =>
      s.lock.Held? && s.lock.pc.Entered? && s' == Goto(s, HasLatest(s.lock.pc.high, s.latest))
    case ReadPending(pending) =>
      && s.lock.Held? && s.lock.pc.HasLatest? && IsPendingCount(s, pending)
      && s' == Goto(s, Route(setup, s.lock.pc.high, s.lock.pc.nonce, pending)).(records := Forget(s.records, s.lock.pc.nonce))
    case SendDefault(reply, lingers) =>
      s.lock.Held? && s.lock.pc.DefaultGas? && DefaultSent(setup, s, reply, lingers, s')
    case SendHighPriority(suggested, reply, lingers) =>
      && s.lock.Held? && s.lock.pc.HighPriority?
      && (match Plan(setup.policy, Lookup(s.records, s.lock.pc.nonce), suggested)
          case None => s' == s.(lock := Free)
          case Some(fees) => HighPrioritySent(s, fees, reply, lingers, s'))
    case Mine =>
      s.latest in s.pool && s' == s.(latest := s.latest + 1, pool := s.pool - {s.latest})
    case Drop(nonce) =>
      s' == s.(pool := s.pool - {nonce})
    case Deliver(nonce, taken) =>
      nonce in s.wire && s' == s.(wire := s.wire - {nonce}, pool := if taken && nonce >= s.latest then s.pool + {nonce} else s.pool)
    case Restart =>
      s' == s.(lock := Free, records := map[])
  }

  ghost predicate DefaultSent(setup: Setup, s: State, reply: Reply, lingers: bool, s': State)
    requires s.lock.Held? && s.lock.pc.DefaultGas?
  {
    var nonce, tried := s.lock.pc.nonce, s.lock.pc.attempt + 1;
    && NodeTakes(s, nonce, reply, lingers, s'.pool, s'.wire)
    && var sent := s.(pool := s'.pool, wire := s'.wire);
       s' == match reply
             case Accepted => Goto(sent, Waiting(nonce))
             case OtherError => sent.(lock := Free)
             case FeeTooLow => Goto(sent, if tried < setup.attempts then DefaultGas(nonce, tried) else HighPriority(nonce))
  }

  ghost predicate HighPrioritySent(s: State, fees: FeeValue, reply: Reply, lingers: bool, s': State)
    requires s.lock.Held? && s.lock.pc.HighPriority?
  {
    var nonce := s.lock.pc.nonce;
    && NodeTakes(s, nonce, reply, lingers, s'.pool, s'.wire)
    && var sent := s.(pool := s'.pool, wire := s'.wire);
       s' == match reply
             case Accepted => Goto(sent, Waiting(nonce)).(records := s.records[nonce := fees])
             case FeeTooLow => sent.(lock := Free, records := s.records[nonce := fees])
             case OtherError => sent.(lock := Free)
  }

  /** A start at which all pending transactions of the wallet sit at the confirmed count. */
  ghost predicate Init(s: State) {
    && (forall n :: n in s.pool ==> n == s.latest)
    && s.wire == {} && s.lock == Free && s.records == map[]
  }

  ghost predicate Run(setup: Setup, states: seq<State>, actions: seq<Action>) {
    && |states| == |actions| + 1 && Init(states[0])
    && forall k :: 0 <= k < |actions| ==> Next(setup, states[k], actions[k], states[k + 1])
  }

  /** The nonce the lock holder works on, once it has read one. */
  function Working(lock: Lock): Option<nat> {
    if lock == Free || lock.pc.Entered? then None else Some(lock.pc.nonce)
  }

  ghost predicate Inv(setup: Setup, s: State) {
    // everything unconfirmed is at the confirmed count, and nothing still travelling can get above it
    && (forall n :: n in s.pool ==> n == s.latest)
    && (forall n :: n in s.wire ==> n <= s.latest)
    // the lock holder works on a nonce that was the confirmed count when it looked
    && (Working(s.lock).Some? ==> Working(s.lock).value <= s.latest)
    // one record at most, within the ceiling, and none above what the lock holder has read
    && Kept(setup.policy, s.records, s.latest)
    && (Working(s.lock).Some? ==> forall n :: n in s.records ==> n <= Working(s.lock).value)
    && (Working(s.lock).Some? && !s.lock.pc.HasLatest? ==> forall n :: n in s.records ==> n == Working(s.lock).value)
  }

  lemma InvStep(setup: Setup, s: State, a: Action, s': State)
    requires Threshold(setup.policy.need) && Inv(setup, s) && Next(setup, s, a, s')
    ensures Inv(setup, s')
    ensures s.latest <= s'.latest
  {
    hide Inv, DefaultSent, Plan, Threshold;
    match a {
      case SendHighPriority(suggested, reply, lingers) =>
        InvPlanned(setup, s, suggested, reply, lingers, s');
      case SendDefault(reply, lingers) =>
        InvDefault(setup, s, reply, lingers, s');
      case _ =>
        InvOther(setup, s, a, s');
    }
  }

  lemma InvPlanned(setup: Setup, s: State, suggested: FeeValue, reply: Reply, lingers: bool, s': State)
    requires Threshold(setup.policy.need) && Inv(setup, s) && Next(setup, s, SendHighPriority(suggested, reply, lingers), s')
    ensures Inv(setup, s') && s.latest <= s'.latest
  {
    var plan := Plan(setup.policy, Lookup(s.records, s.lock.pc.nonce), suggested);
    PlanSpec(setup.policy, Lookup(s.records, s.lock.pc.nonce), suggested);
    hide Plan, Threshold;
    if plan.Some? {
      InvHighPriority(setup, s, plan.value, reply, lingers, s');
    }
  }

  lemma InvOther(setup: Setup, s: State, a: Action, s': State)
    requires Inv(setup, s) && Next(setup, s, a, s') && !a.SendDefault? && !a.SendHighPriority?
    ensures Inv(setup, s') && s.latest <= s'.latest
  {
    hide Plan, Within, DefaultSent, HighPrioritySent;
  }

  lemma InvHighPriority(setup: Setup, s: State, fees: FeeValue, reply: Reply, lingers: bool, s': State)
    requires Inv(setup, s) && s.lock.Held? && s.lock.pc.HighPriority? && HighPrioritySent(s, fees, reply, lingers, s')
    requires Within(fees, setup.policy.maxFeePerGas)
    ensures Inv(setup, s') && s.latest <= s'.latest
  {
    hide Within;
  }

  lemma InvDefault(setup: Setup, s: State, reply: Reply, lingers: bool, s': State)
    requires Inv(setup, s) && s.lock.Held? && s.lock.pc.DefaultGas? && DefaultSent(setup, s, reply, lingers, s')
    ensures Inv(setup, s') && s.latest <= s'.latest
  {
    hide Within;
  }

  /** Every state of every run satisfies the invariant. */
  lemma {:induction false} RunInv(setup: Setup, states: seq<State>, actions: seq<Action>, k: nat)
    requires Threshold(setup.policy.need) && Run(setup, states, actions) && k < |states|
    ensures Inv(setup, states[k])
  {
    if k > 0 {
      RunInv(setup, states, actions, k - 1);
      InvStep(setup, states[k - 1], actions[k - 1], states[k]);
    }
  }

  /**
   * At most one nonce is in flight, at the confirmed count: no gaps, no queue behind a stuck
   * transaction, and at most one fee record.
   */
  lemma AtMostOneInFlight(setup: Setup, states: seq<State>, actions: seq<Action>, k: nat, pending: nat)
    requires Threshold(setup.policy.need) && Run(setup, states, actions) && k < |states| && IsPendingCount(states[k], pending)
    ensures var s := states[k];
      && (s.pool == {} || s.pool == {s.latest})
      && pending == (if s.pool == {} then s.latest else s.latest + 1)
      && |s.records| <= 1
  {
    RunInv(setup, states, actions, k);
    hide Run, Threshold, Within;
    var s := states[k];
    if s.pool != {} {
      var n :| n in s.pool;
      assert s.pool == {s.latest};
      assert s.latest + 1 !in s.pool;
    } else {
      assert s.latest !in s.pool;
    }
    if s.records != map[] {
      var n :| n in s.records;
      assert s.records.Keys == {n};
    }
  }

  // ---- the history of the fee records of one process

  /** The record for n is gone for good: everything from now on works on later nonces. */
  ghost predicate Retired(s: State, n: nat) {
    && n !in s.records && n < s.latest
    && (Working(s.lock).Some? ==> n < Working(s.lock).value)
  }

  lemma RetiredStays(setup: Setup, s: State, a: Action, s': State, n: nat)
    requires Next(setup, s, a, s') && Retired(s, n)
    ensures Retired(s', n)
  {
  }

  /** In one step a record stays, is replaced past the threshold, or is gone for good. */
  lemma RecordStep(setup: Setup, s: State, a: Action, s': State, n: nat)
    requires Threshold(setup.policy.need) && Inv(setup, s) && Next(setup, s, a, s') && a != Restart && n in s.records
    ensures if n in s'.records
            then s'.records[n] == s.records[n] || Replaces(setup.policy.need, s'.records[n], s.records[n])
            else Retired(s', n)
    ensures n in s'.records ==> Within(s'.records[n], setup.policy.maxFeePerGas)
  {
    InvStep(setup, s, a, s');
    if a.SendHighPriority? {
      PlanSpec(setup.policy, Lookup(s.records, s.lock.pc.nonce), a.suggested);
    }
  }

  /** How often the record for n changes from state i to state j. */
  ghost function Changes(states: seq<State>, n: nat, i: nat, j: nat): nat
    requires i <= j < |states|
    decreases j
  {
    if i == j then 0
    else Changes(states, n, i, j - 1) + if Lookup(states[j].records, n) == Lookup(states[j - 1].records, n) then 0 else 1
  }

  /**
   * Within one process the fees recorded for a nonce only rise: from any state to any later one
   * without a restart in between, both fees have grown by at least 10% with every change, within
   * priority <= fee <= ceiling; a record that is dropped never comes back.
   */
  lemma {:induction false} RecordedFeesRise(setup: Setup, states: seq<State>, actions: seq<Action>, n: nat, i: nat, j: nat)
    requires Threshold(setup.policy.need) && Run(setup, states, actions) && i <= j < |states|
    requires forall k :: i <= k < j ==> actions[k] != Restart
    requires n in states[i].records
    ensures if n in states[j].records
            then Risen(setup.policy.maxFeePerGas, Changes(states, n, i, j), states[i].records[n], states[j].records[n])
            else Retired(states[j], n)
    decreases j
  {
    RunInv(setup, states, actions, i);
    if i == j {
      GrownNothing(states[i].records[n].feePerGas);
      GrownNothing(states[i].records[n].priorityFeePerGas);
    } else {
      hide Inv, Next, Risen, Threshold, Retired, Replaces, Within, Init;
      RecordedFeesRise(setup, states, actions, n, i, j - 1);
      RunInv(setup, states, actions, j - 1);
      var s, a, s' := states[j - 1], actions[j - 1], states[j];
      if n !in s.records {
        RetiredStays(setup, s, a, s', n);
      } else {
        RecordStep(setup, s, a, s', n);
        if n in s'.records && s'.records[n] != s.records[n] {
          RiseOnce(setup.policy, Changes(states, n, i, j - 1), states[i].records[n], s.records[n], s'.records[n]);
        }
      }
    }
  }

  // ---- a call of the manager is a run of the protocol

  /** A broadcast and the node's answer to it. */
  datatype Exchange = Exchange(broadcast: Broadcast, reply: Reply)

  /** One task about to take the free lock. */
  datatype Visit = Visit(setup: Setup, start: State, task: nat, high: bool)

  /** The exchange that a step of the lock holder makes, if any. */
  function Made(setup: Setup, s: State, a: Action): seq<Exchange> {
    if s.lock == Free then []
    else
      match (a, s.lock.pc)
      case (SendDefault(reply, _), DefaultGas(nonce, _)) => [Exchange(Broadcast(nonce, None), reply)]
      case (SendHighPriority(suggested, reply, _), HighPriority(nonce)) =>
        (match Plan(setup.policy, Lookup(s.records, nonce), suggested)
         case None => []
         case Some(fees) => [Exchange(Broadcast(nonce, Some(fees)), reply)])
      case _ => []
  }

  /** All exchanges along a path, in order. */
  function Log(setup: Setup, states: seq<State>, actions: seq<Action>): seq<Exchange>
    requires |states| == |actions| + 1
  {
    if actions == [] then []
    else
      var k := |actions| - 1;
      Log(setup, states[..k + 1], actions[..k]) + Made(setup, states[k], actions[k])
  }

  /** The steps of a task inside the lock. */
  predicate Own(a: Action) {
    a.Release? || a.ReadLatest? || a.ReadPending? || a.SendDefault? || a.SendHighPriority?
  }

  /** The task takes the lock, and every further step is its own. */
  ghost predicate Path(v: Visit, states: seq<State>, actions: seq<Action>) {
    && |states| == |actions| + 1 && actions != []
    && states[0] == v.start && actions[0] == Acquire(v.task, v.high)
    && (forall k :: 0 <= k < |actions| ==> Next(v.setup, states[k], actions[k], states[k + 1]))
    && (forall k :: 1 <= k < |actions| ==> Own(actions[k]))
  }

  /** The task can take the protocol to s by its own steps alone, with exactly the exchanges of the log. */
  ghost predicate Reaches(v: Visit, s: State, log: seq<Exchange>) {
    exists states, actions :: Path(v, states, actions) && states[|actions|] == s && Log(v.setup, states, actions) == log
  }

  lemma ReachesEntered(v: Visit)
    requires v.start.lock == Free
    ensures Reaches(v, v.start.(lock := Held(v.task, Entered(v.high))), [])
  {
    var states, actions := [v.start, v.start.(lock := Held(v.task, Entered(v.high)))], [Acquire(v.task, v.high)];
    assert Path(v, states, actions);
    assert Log(v.setup, states[..1], actions[..0]) == [];
    assert Log(v.setup, states, actions) == [];
  }

  lemma ReachesNext(v: Visit, s: State, log: seq<Exchange>, a: Action, s': State)
    requires Reaches(v, s, log) && Next(v.setup, s, a, s') && Own(a)
    ensures Reaches(v, s', log + Made(v.setup, s, a))
  {
    hide Next, Made;
    var states, actions :| Path(v, states, actions) && states[|actions|] == s && Log(v.setup, states, actions) == log;
    var states', actions' := states + [s'], actions + [a];
    assert states'[..|actions| + 1] == states && actions'[..|actions|] == actions;
    assert Path(v, states', actions') && states'[|actions'|] == s';
  }

  /** A step that broadcasts nothing. */
  lemma ReachesQuietly(v: Visit, s: State, log: seq<Exchange>, a: Action, s': State)
    requires Reaches(v, s, log) && Next(v.setup, s, a, s') && (a.Release? || a.ReadLatest? || a.ReadPending?)
    ensures Reaches(v, s', log)
  {
    hide Next;
    ReachesNext(v, s, log, a, s');
    assert log + Made(v.setup, s, a) == log;
  }

  /** k broadcasts without fees that were rejected. */
  function Rejections(nonce: nat, k: nat): seq<Exchange> {
    seq(k, _ => Exchange(Broadcast(nonce, None), FeeTooLow))
  }

  /** k default-gas attempts rejected for their fee, with more attempts to come or the escalation next. */
  lemma {:induction false} RejectedAttempts(v: Visit, from: State, nonce: nat, k: nat)
    requires from.lock.Held? && from.lock.pc == DefaultGas(nonce, 0) && Reaches(v, from, []) && k <= v.setup.attempts && v.setup.attempts > 0
    ensures Reaches(v, Goto(from, if k < v.setup.attempts then DefaultGas(nonce, k) else HighPriority(nonce)), Rejections(nonce, k))
  {
    hide Reaches;
    if k == 0 {
      assert Goto(from, DefaultGas(nonce, 0)) == from;
      assert Rejections(nonce, 0) == [];
    } else {
      RejectedAttempts(v, from, nonce, k - 1);
      var before := Goto(from, DefaultGas(nonce, k - 1));
      var after := Goto(from, if k < v.setup.attempts then DefaultGas(nonce, k) else HighPriority(nonce));
      var a := SendDefault(FeeTooLow, false);
      assert Next(v.setup, before, a, after);
      ReachesNext(v, before, Rejections(nonce, k - 1), a, after);
      assert Rejections(nonce, k - 1) + Made(v.setup, before, a) == Rejections(nonce, k);
    }
  }

  /** A state with the lock free after a call with the given records and last answer; lingers is a failed broadcast still travelling. */
  function Left(s: State, records: map<nat, FeeValue>, nonce: nat, last: Option<Reply>, lingers: bool): State {
    s.(lock := Free, records := records,
       pool := if last == Some(Accepted) then s.pool + {nonce} else s.pool,
       wire := if last == Some(OtherError) && lingers then s.wire + {nonce} else s.wire)
  }

  /** The broadcasts of one submission, which are none or one, with the answer. */
  function Answered(sent: seq<Broadcast>, reply: Reply): seq<Exchange> {
    seq(|sent|, k requires 0 <= k < |sent| => Exchange(sent[k], reply))
  }

  lemma HighPriorityPath(v: Visit, from: State, log: seq<Exchange>, nonce: nat, suggested: Option<FeeValue>, reply: Reply, lingers: bool,
                         records': map<nat, FeeValue>, sent: seq<Broadcast>, outcome: Outcome)
    requires from.lock.Held? && from.lock.pc == HighPriority(nonce) && Reaches(v, from, log) && from.latest == nonce
    requires HighPriorityEnds(v.setup.policy, from.records, nonce, suggested, reply, records', sent, outcome)
    ensures var last := if sent == [] then None else Some(reply);
      Reaches(v, Left(from, records', nonce, last, lingers), log + Answered(sent, reply))
  {
    hide Reaches, Plan;
    var last := if sent == [] then None else Some(reply);
    var end := Left(from, records', nonce, last, lingers);
    if suggested == None {
      assert Next(v.setup, from, Release, end);
      ReachesQuietly(v, from, log, Release, end);
      assert log + Answered(sent, reply) == log;
    } else {
      var a := SendHighPriority(suggested.value, reply, lingers);
      var after := if last == Some(Accepted) then end.(lock := Held(from.lock.task, Waiting(nonce))) else end;
      assert Next(v.setup, from, a, after);
      ReachesNext(v, from, log, a, after);
      assert Made(v.setup, from, a) == Answered(sent, reply);
      if last == Some(Accepted) {
        ReachesQuietly(v, after, log + Answered(sent, reply), Release, end);
      }
    }
  }

  /** The default-gas attempts, up to an answer that is no fee rejection or to the escalation. */
  lemma DefaultGasPath(v: Visit, from: State, nonce: nat, reply: nat -> Reply, lingers: bool, k: nat, outcome: Outcome)
    requires from.lock.Held? && from.lock.pc == Route(v.setup, false, nonce, nonce) && Reaches(v, from, []) && from.latest == nonce
    requires DefaultGasEnds(reply, v.setup.attempts, k, outcome)
    ensures outcome == NotSent ==> Reaches(v, Goto(from, HighPriority(nonce)), Rejections(nonce, k))
    ensures outcome != NotSent ==> k > 0
    ensures outcome != NotSent ==>
      Reaches(v, Left(from, from.records, nonce, Some(reply(k - 1)), lingers),
              Rejections(nonce, k - 1) + [Exchange(Broadcast(nonce, None), reply(k - 1))])
  {
    hide Reaches;
    if outcome == NotSent {
      if v.setup.attempts > 0 {
        RejectedAttempts(v, from, nonce, k);
      } else {
        assert Goto(from, HighPriority(nonce)) == from && Rejections(nonce, k) == [];
      }
    } else {
      RejectedAttempts(v, from, nonce, k - 1);
      var before, log := Goto(from, DefaultGas(nonce, k - 1)), Rejections(nonce, k - 1);
      var end := Left(from, from.records, nonce, Some(reply(k - 1)), lingers);
      var after := if outcome == Sent then end.(lock := Held(from.lock.task, Waiting(nonce))) else end;
      var a := SendDefault(reply(k - 1), lingers);
      assert Next(v.setup, before, a, after);
      ReachesNext(v, before, log, a, after);
      if outcome == Sent {
        ReachesQuietly(v, after, log + Made(v.setup, before, a), Release, end);
      }
    }
  }

  /** The broadcasts of a call, each with the node's answer to it. */
  function Exchanges(env: Env, sent: seq<Broadcast>): seq<Exchange> {
    seq(|sent|, k requires 0 <= k < |sent| => Exchange(sent[k], env.reply(k)))
  }

  /** The steps before the first broadcast. */
  lemma Routed(v: Visit, pending: nat)
    requires v.start.lock == Free && IsPendingCount(v.start, pending)
    ensures var n := v.start.latest;
      Reaches(v, v.start.(lock := Held(v.task, Route(v.setup, v.high, n, pending)), records := Forget(v.start.records, n)), [])
  {
    hide Reaches;
    var s, n := v.start, v.start.latest;
    var entered := s.(lock := Held(v.task, Entered(v.high)));
    var read := s.(lock := Held(v.task, HasLatest(v.high, n)));
    var routed := s.(lock := Held(v.task, Route(v.setup, v.high, n, pending)), records := Forget(s.records, n));
    ReachesEntered(v);
    ReachesQuietly(v, entered, [], ReadLatest, read);
    ReachesQuietly(v, read, [], ReadPending(pending), routed);
  }

  /**
   * A call of TransactionManager.Transact is a visit of its task to the lock: by its own steps, and
   * with exactly the call's broadcasts and answers in order, the protocol reaches a free lock, the
   * call's records, and a pool with the nonce added if and only if the last broadcast was accepted.
   */
  lemma CallIsProtocolRun(setup: Setup, s: State, task: nat, env: Env, highPriority: bool, estimateGas: bool, lingers: bool,
                          records': map<nat, FeeValue>, sent: seq<Broadcast>, result: Transactions.Result)
    requires s.lock == Free && env.latest == s.latest && IsPendingCount(s, env.pending)
    requires Called(setup.policy, setup.attempts, s.records, env, highPriority, estimateGas, records', sent, result)
    ensures Reaches(Visit(setup, s, task, highPriority),
                    Left(s, records', s.latest, LastReply(env, sent), lingers), Exchanges(env, sent))
  {
    hide Reaches, HighPriorityEnds;
    var v, n := Visit(setup, s, task, highPriority), s.latest;
    if (estimateGas && !env.simulates) || !env.readsNonces {
      ReachesEntered(v);
      var entered := s.(lock := Held(task, Entered(highPriority)));
      assert Next(setup, entered, Release, s);
      ReachesQuietly(v, entered, [], Release, s);
      assert Left(s, records', n, None, lingers) == s && Exchanges(env, sent) == [];
    } else {
      hide Next;
      Routed(v, env.pending);
      var kept := Forget(s.records, n);
      var routed := s.(lock := Held(task, Route(setup, highPriority, n, env.pending)), records := kept);
      if env.pending > n || highPriority {
        var outcome :| HighPriorityEnds(setup.policy, kept, n, env.suggested, env.reply(0), records', sent, outcome)
                    && result == ResultOf(outcome, env.receipt);
        OneBroadcast(setup.policy, kept, n, env.suggested, env.reply(0), records', sent, outcome);
        HighPriorityPath(v, routed, [], n, env.suggested, env.reply(0), lingers, records', sent, outcome);
        assert [] + Answered(sent, env.reply(0)) == Exchanges(env, sent);
      } else {
        hide AfterDefaultGas;
        var k: nat, outcome :| DefaultGasEnds(env.reply, setup.attempts, k, outcome)
                            && AfterDefaultGas(setup.policy, kept, env, k, outcome, records', sent, result);
        DefaultGasRun(v, routed, env, lingers, k, outcome, records', sent, result);
        assert Left(routed, records', n, LastReply(env, sent), lingers) == Left(s, records', n, LastReply(env, sent), lingers);
      }
    }
  }

  lemma DefaultGasRun(v: Visit, from: State, env: Env, lingers: bool, k: nat, outcome: Outcome,
                      records': map<nat, FeeValue>, sent: seq<Broadcast>, result: Transactions.Result)
    requires from.lock.Held? && from.lock.pc == Route(v.setup, false, env.latest, env.latest)
    requires from.latest == env.latest && Reaches(v, from, [])
    requires DefaultGasEnds(env.reply, v.setup.attempts, k, outcome)
    requires AfterDefaultGas(v.setup.policy, from.records, env, k, outcome, records', sent, result)
    ensures Reaches(v, Left(from, records', env.latest, LastReply(env, sent), lingers), Exchanges(env, sent))
  {
    hide Reaches, HighPriorityEnds, Next, Route;
    var n := env.latest;
    DefaultGasPath(v, from, n, env.reply, lingers, k, outcome);
    if outcome == NotSent {
      assert forall i :: 0 <= i < k ==> env.reply(i) == FeeTooLow;
      hide DefaultGasEnds;
      var more, last :| HighPriorityEnds(v.setup.policy, from.records, n, env.suggested, env.reply(k), records', more, last)
                     && sent == DefaultBroadcasts(n, k) + more && result == ResultOf(last, env.receipt);
      OneBroadcast(v.setup.policy, from.records, n, env.suggested, env.reply(k), records', more, last);
      HighPriorityPath(v, Goto(from, HighPriority(n)), Rejections(n, k), n, env.suggested, env.reply(k), lingers, records', more, last);
      ExchangesEscalated(env, n, k, more);
    } else {
      assert Rejections(n, k - 1) + [Exchange(Broadcast(n, None), env.reply(k - 1))] == Exchanges(env, sent);
    }
  }

  lemma ExchangesEscalated(env: Env, nonce: nat, k: nat, more: seq<Broadcast>)
    requires |more| <= 1 && forall i :: 0 <= i < k ==> env.reply(i) == FeeTooLow
    ensures Rejections(nonce, k) + Answered(more, env.reply(k)) == Exchanges(env, DefaultBroadcasts(nonce, k) + more)
  {
  }

  lemma OneBroadcast(policy: Policy, records: map<nat, FeeValue>, nonce: nat, suggested: Option<FeeValue>, reply: Reply,
                     records': map<nat, FeeValue>, sent: seq<Broadcast>, outcome: Outcome)
    requires HighPriorityEnds(policy, records, nonce, suggested, reply, records', sent, outcome)
    ensures |sent| <= 1
  {
  }
}
