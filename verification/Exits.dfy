/** Collection of exit signature shares and submission of the recovered exit signatures (src/exits/service.py). */
module Exits {
  import opened Wrappers
  import opened Dicts
  import opened PrimeField
  import opened Crypto

  /** One line of an oracle's answer: a validator and this oracle's share of its exit signature. */
  datatype Entry<S> = Entry(index: int, signature: S)

  /** ValidatorExitShare: the share index is the position of the oracle in the protocol config. */
  datatype Share<S> = Share(validatorIndex: int, signature: S, shareIndex: int)

  /** The answers of the oracles in config order; None for an oracle whose request raised. */
  type Answers<S> = seq<Option<seq<Entry<S>>>>

  /** A validator as the consensus node reports it. */
  datatype Validator = Validator(index: int, exiting: bool)

  type Node = seq<int> -> Option<seq<Validator>>

  // ---- grouping by validator

  /** The shares for validator v among the lines of oracle o. */
  function ListedBy<S>(entries: seq<Entry<S>>, v: int, o: int): seq<Share<S>> {
    if entries == [] then []
    else
      var e := entries[|entries| - 1];
      ListedBy(entries[..|entries| - 1], v, o) + if e.index == v then [Share(v, e.signature, o)] else []
  }

  /** All shares for validator v, by oracle. */
  function SharesOf<S>(answers: Answers<S>, v: int): seq<Share<S>> {
    if answers == [] then []
    else
      var o := |answers| - 1;
      SharesOf(answers[..o], v) + if answers[o].Some? then ListedBy(answers[o].value, v, o) else []
  }

  lemma {:induction false} ListedBySpec<S(!new)>(entries: seq<Entry<S>>, v: int, o: int)
    ensures forall s :: s in ListedBy(entries, v, o) <==>
      exists k :: 0 <= k < |entries| && entries[k].index == v && s == Share(v, entries[k].signature, o)
  {
    if entries != [] {
      var n := |entries| - 1;
      ListedBySpec(entries[..n], v, o);
      forall s ensures s in ListedBy(entries, v, o) <==>
        exists k :: 0 <= k < |entries| && entries[k].index == v && s == Share(v, entries[k].signature, o)
      {
        if s in ListedBy(entries[..n], v, o) {
          var k :| 0 <= k < n && entries[..n][k].index == v && s == Share(v, entries[..n][k].signature, o);
          assert entries[k] == entries[..n][k];
        }
        if k :| 0 <= k < |entries| && entries[k].index == v && s == Share(v, entries[k].signature, o) {
          assert k < n ==> entries[..n][k] == entries[k];
        }
      }
    }
  }

  /** The shares for v are exactly the lines that name v, each under the position of its oracle. */
  lemma {:induction false} SharesOfSpec<S(!new)>(answers: Answers<S>, v: int, s: Share<S>)
    ensures s in SharesOf(answers, v) <==>
      && 0 <= s.shareIndex < |answers| && answers[s.shareIndex].Some? && s.validatorIndex == v
      && exists k :: 0 <= k < |answers[s.shareIndex].value| && answers[s.shareIndex].value[k] == Entry(v, s.signature)
  {
    if answers != [] {
      var o := |answers| - 1;
      SharesOfSpec(answers[..o], v, s);
      assert 0 <= s.shareIndex < o ==> answers[..o][s.shareIndex] == answers[s.shareIndex];
      if answers[o].Some? {
        ListedBySpec(answers[o].value, v, o);
        if s in ListedBy(answers[o].value, v, o) {
          var k :| 0 <= k < |answers[o].value| && answers[o].value[k].index == v && s == Share(v, answers[o].value[k].signature, o);
          assert answers[o].value[k] == Entry(v, s.signature);
        }
      }
    }
  }

  /** The validators in the order in which the answers first name them. */
  function FirstSeen(indexes: seq<int>): seq<int> {
    if indexes == [] then []
    else
      var seen, v := FirstSeen(indexes[..|indexes| - 1]), indexes[|indexes| - 1];
      if v in seen then seen else seen + [v]
  }

  function Indexes<S>(entries: seq<Entry<S>>): seq<int> {
    if entries == [] then []
    else Indexes(entries[..|entries| - 1]) + [entries[|entries| - 1].index]
  }

  function AllIndexes<S>(answers: Answers<S>): seq<int> {
    if answers == [] then []
    else
      var o := |answers| - 1;
      AllIndexes(answers[..o]) + if answers[o].Some? then Indexes(answers[o].value) else []
  }

  function Validators<S>(answers: Answers<S>): seq<int> {
    FirstSeen(AllIndexes(answers))
  }

  /** The shares for v in the answers before oracle o and in the given lines of oracle o. */
  function SoFar<S>(before: Answers<S>, entries: seq<Entry<S>>, o: int, v: int): seq<Share<S>> {
    SharesOf(before, v) + ListedBy(entries, v, o)
  }

  /** exits holds the validators named so far in order, each with its shares so far. */
  ghost predicate Holds<S>(exits: Dict<int, seq<Share<S>>>, before: Answers<S>, entries: seq<Entry<S>>, o: int) {
    && exits.Valid()
    && exits.order == FirstSeen(AllIndexes(before) + Indexes(entries))
    && (forall v :: v in exits.at <==> SoFar(before, entries, o, v) != [])
    && (forall v :: v in exits.at ==> exits.at[v] == SoFar(before, entries, o, v))
  }

  /** Appending the share of the next line keeps the grouping. */
  lemma AppendShare<S>(exits: Dict<int, seq<Share<S>>>, before: Answers<S>, entries: seq<Entry<S>>, k: nat, o: int)
    requires k < |entries| && Holds(exits, before, entries[..k], o)
    ensures var e := entries[k];
      var shares := if e.index in exits.at then exits.at[e.index] else [];
      Holds(exits.Set(e.index, shares + [Share(e.index, e.signature, o)]), before, entries[..k + 1], o)
  {
    hide SoFar, AllIndexes, Indexes, FirstSeen;
    var e := entries[k];
    var shares := if e.index in exits.at then exits.at[e.index] else [];
    var next := exits.Set(e.index, shares + [Share(e.index, e.signature, o)]);
    FirstSeenSnoc(before, entries, k);
    forall v
      ensures v in next.at <==> SoFar(before, entries[..k + 1], o, v) != []
      ensures v in next.at ==> next.at[v] == SoFar(before, entries[..k + 1], o, v)
    {
      assert v in exits.at <==> SoFar(before, entries[..k], o, v) != [];
      SoFarSnoc(before, entries, k, o, v);
    }
  }

  lemma FirstSeenSnoc<S>(before: Answers<S>, entries: seq<Entry<S>>, k: nat)
    requires k < |entries|
    ensures var seen := FirstSeen(AllIndexes(before) + Indexes(entries[..k]));
      FirstSeen(AllIndexes(before) + Indexes(entries[..k + 1]))
        == if entries[k].index in seen then seen else seen + [entries[k].index]
  {
    assert entries[..k + 1][..k] == entries[..k];
    var one, two := AllIndexes(before) + Indexes(entries[..k]), AllIndexes(before) + Indexes(entries[..k + 1]);
    assert two == one + [entries[k].index];
    assert two[..|two| - 1] == one;
  }

  lemma SoFarSnoc<S>(before: Answers<S>, entries: seq<Entry<S>>, k: nat, o: int, v: int)
    requires k < |entries|
    ensures SoFar(before, entries[..k + 1], o, v)
         == SoFar(before, entries[..k], o, v) + if entries[k].index == v then [Share(v, entries[k].signature, o)] else []
  {
    assert entries[..k + 1][..k] == entries[..k];
  }

  /** After an oracle's last line the grouping is the one over the answers up to this oracle. */
  lemma NextOracle<S>(exits: Dict<int, seq<Share<S>>>, answers: Answers<S>, o: nat)
    requires o < |answers|
    requires Holds(exits, answers[..o], if answers[o].Some? then answers[o].value else [], o)
    ensures Holds(exits, answers[..o + 1], [], o + 1)
  {
    hide SoFar, SharesOf, FirstSeen;
    var entries := if answers[o].Some? then answers[o].value else [];
    assert answers[..o + 1][..o] == answers[..o];
    assert AllIndexes(answers[..o + 1]) + [] == AllIndexes(answers[..o]) + Indexes(entries);
    forall v ensures SoFar(answers[..o + 1], [], o + 1, v) == SoFar(answers[..o], entries, o, v) {
      OracleDone(answers, o, v);
    }
  }

  lemma OracleDone<S>(answers: Answers<S>, o: nat, v: int)
    requires o < |answers|
    ensures SoFar(answers[..o + 1], [], o + 1, v)
         == SoFar(answers[..o], if answers[o].Some? then answers[o].value else [], o, v)
  {
    assert answers[..o + 1][..o] == answers[..o];
  }

  lemma Grouped<S>(exits: Dict<int, seq<Share<S>>>, answers: Answers<S>)
    requires Holds(exits, answers, [], |answers|)
    ensures exits.Valid() && exits.order == Validators(answers)
    ensures forall v :: v in exits.at <==> SharesOf(answers, v) != []
    ensures forall v :: v in exits.at ==> exits.at[v] == SharesOf(answers, v)
  {
    hide FirstSeen, SharesOf, AllIndexes;
    assert AllIndexes(answers) + [] == AllIndexes(answers);
    forall v ensures SoFar(answers, [], |answers|, v) == SharesOf(answers, v) {
      assert SharesOf(answers, v) + [] == SharesOf(answers, v);
    }
  }

  lemma NothingGrouped<S>()
    ensures Holds<S>(Dict([], map[]), [], [], 0)
  {
  }

  method FetchValidatorExits<S>(answers: Answers<S>) returns (exits: Dict<int, seq<Share<S>>>)
    ensures exits.Valid() && exits.order == Validators(answers)
    ensures forall v :: v in exits.at <==> SharesOf(answers, v) != []
    ensures forall v :: v in exits.at ==> exits.at[v] == SharesOf(answers, v)
  {
    hide Holds, SharesOf, Validators;
    exits := Dict([], map[]);
    NothingGrouped<S>();
    assert answers[..0] == [];
    for o := 0 to |answers|
      invariant Holds(exits, answers[..o], [], o)
    {
      if answers[o].Some? {
        var entries := answers[o].value;
        assert entries[..0] == [];
        for k := 0 to |entries|
          invariant Holds(exits, answers[..o], entries[..k], o)
        {
          var e := entries[k];
          AppendShare(exits, answers[..o], entries, k, o);
          var shares := if e.index in exits.at then exits.at[e.index] else [];
          exits := exits.Set(e.index, shares + [Share(e.index, e.signature, o)]);
        }
        assert entries[..|entries|] == entries;
      }
      NextOracle(exits, answers, o);
    }
    assert answers[..|answers|] == answers;
    Grouped(exits, answers);
  }

  // ---- removal of validators that exit already

  function Exiting(validators: seq<Validator>): seq<int> {
    if validators == [] then []
    else if validators[0].exiting then [validators[0].index] + Exiting(validators[1..])
    else Exiting(validators[1..])
  }

  function Batch(indexes: seq<int>, size: nat): (batch: seq<int>)
    ensures batch <= indexes && |batch| <= size
  {
    if |indexes| <= size then indexes else indexes[..size]
  }

  /** Every index the node reports as exiting over all batches; None if a query raises. */
  function Reported(indexes: seq<int>, size: nat, node: Node): Option<seq<int>>
    requires size > 0
  {
    if indexes == [] then Some([])
    else
      var batch := Batch(indexes, size);
      match (node(batch), Reported(indexes[|batch|..], size, node))
      case (Some(validators), Some(rest)) => Some(Exiting(validators) + rest)
      case _ => None
  }

  /** The at most size indexes from position n on. */
  ghost predicate IsSlice(indexes: seq<int>, size: nat, n: int, batch: seq<int>) {
    0 <= n < |indexes| && batch == indexes[n..if n + size <= |indexes| then n + size else |indexes|]
  }

  /** The k-th batch of at most size indexes. */
  ghost predicate IsBatch(indexes: seq<int>, size: nat, k: nat, batch: seq<int>) {
    IsSlice(indexes, size, k * size, batch)
  }

  lemma FirstBatch(indexes: seq<int>, size: nat, batch: seq<int>)
    requires size > 0
    ensures IsBatch(indexes, size, 0, batch) <==> indexes != [] && batch == Batch(indexes, size)
  {
    assert indexes[0..|indexes|] == indexes;
  }

  lemma SliceShift(indexes: seq<int>, size: nat, n: nat, batch: seq<int>)
    requires size > 0 && indexes != []
    ensures IsSlice(indexes, size, n + size, batch) <==> IsSlice(indexes[|Batch(indexes, size)|..], size, n, batch)
  {
    var rest := indexes[|Batch(indexes, size)|..];
    if n < |rest| {
      assert |indexes| > size && rest == indexes[size..];
      var end := if n + size <= |rest| then n + size else |rest|;
      DropSlice(indexes, size, n, end);
    }
  }

  lemma DropSlice(s: seq<int>, m: nat, from: nat, end: nat)
    requires m <= |s| && from <= end <= |s| - m
    ensures s[m..][from..end] == s[from + m..end + m]
  {
    var one, two := s[m..][from..end], s[from + m..end + m];
    assert |one| == |two|;
    forall k | 0 <= k < |one| ensures one[k] == two[k] {
      assert one[k] == s[m..][from + k] == s[m + from + k];
    }
  }

  lemma LaterBatch(indexes: seq<int>, size: nat, k: nat, batch: seq<int>)
    requires size > 0 && indexes != []
    ensures IsBatch(indexes, size, k + 1, batch) <==> IsBatch(indexes[|Batch(indexes, size)|..], size, k, batch)
  {
    hide IsSlice, Batch;
    assert (k + 1) * size == k * size + size;
    SliceShift(indexes, size, k * size, batch);
  }

  /** Validator v is reported as exiting in the answer to some batch. */
  ghost predicate ReportedIn(indexes: seq<int>, size: nat, node: Node, k: nat, batch: seq<int>, v: int) {
    IsBatch(indexes, size, k, batch) && node(batch).Some? && Validator(v, true) in node(batch).value
  }

  /** Some batch is answered with an error. */
  ghost predicate BatchFails(indexes: seq<int>, size: nat, node: Node) {
    exists k: nat, batch :: IsBatch(indexes, size, k, batch) && node(batch) == None
  }

  /** All batches are asked: a failed one fails the whole, and otherwise their exiting indexes are reported and no others. */
  lemma {:induction false} ReportedSpec(indexes: seq<int>, size: nat, node: Node)
    requires size > 0
    ensures Reported(indexes, size, node) == None <==> BatchFails(indexes, size, node)
    ensures Reported(indexes, size, node).Some? ==> forall v ::
      v in Reported(indexes, size, node).value <==> exists k: nat, batch :: ReportedIn(indexes, size, node, k, batch, v)
    decreases |indexes|
  {
    hide IsBatch;
    forall batch { FirstBatch(indexes, size, batch); }
    if indexes == [] {
      assert forall k: nat, batch :: !IsBatch(indexes, size, k, batch) by { hide *; NoBatches(size); }
    } else {
      var batch := Batch(indexes, size);
      var rest := indexes[|batch|..];
      ReportedSpec(rest, size, node);
      forall k: nat, b { LaterBatch(indexes, size, k, b); }
      FailsNext(indexes, size, node);
      if Reported(indexes, size, node).Some? {
        forall v ensures v in Reported(indexes, size, node).value <==> exists k: nat, b :: ReportedIn(indexes, size, node, k, b, v) {
          ExitingSpec(node(batch).value, v);
          ReportedNext(indexes, size, node, v);
        }
      }
    }
  }

  lemma NoBatches(size: nat)
    ensures forall k: nat, batch :: !IsBatch([], size, k, batch)
  {
  }

  lemma {:induction false} ExitingSpec(validators: seq<Validator>, v: int)
    ensures v in Exiting(validators) <==> Validator(v, true) in validators
  {
    if validators != [] {
      ExitingSpec(validators[1..], v);
      assert validators == [validators[0]] + validators[1..];
    }
  }

  lemma FailsNext(indexes: seq<int>, size: nat, node: Node)
    requires size > 0 && indexes != []
    ensures var batch := Batch(indexes, size);
      BatchFails(indexes, size, node) <==> node(batch) == None || BatchFails(indexes[|batch|..], size, node)
  {
    hide IsBatch, Batch;
    var batch := Batch(indexes, size);
    FirstBatch(indexes, size, batch);
    if k: nat, b :| IsBatch(indexes, size, k, b) && node(b) == None {
      if k == 0 { FirstBatch(indexes, size, b); } else { LaterBatch(indexes, size, k - 1, b); }
    }
    if k: nat, b :| IsBatch(indexes[|batch|..], size, k, b) && node(b) == None {
      LaterBatch(indexes, size, k, b);
      assert IsBatch(indexes, size, k + 1, b);
    }
  }

  lemma ReportedNext(indexes: seq<int>, size: nat, node: Node, v: int)
    requires size > 0 && indexes != []
    ensures var batch := Batch(indexes, size);
      (exists k: nat, b :: ReportedIn(indexes, size, node, k, b, v)) <==>
        (node(batch).Some? && Validator(v, true) in node(batch).value)
        || exists k: nat, b :: ReportedIn(indexes[|batch|..], size, node, k, b, v)
  {
    hide IsBatch, Batch;
    var batch := Batch(indexes, size);
    FirstBatch(indexes, size, batch);
    if k: nat, b :| ReportedIn(indexes, size, node, k, b, v) {
      if k == 0 {
        FirstBatch(indexes, size, b);
      } else {
        LaterBatch(indexes, size, k - 1, b);
        assert ReportedIn(indexes[|batch|..], size, node, k - 1, b, v);
      }
    }
    if node(batch).Some? && Validator(v, true) in node(batch).value {
      assert ReportedIn(indexes, size, node, 0, batch, v);
    }
    if k: nat, b :| ReportedIn(indexes[|batch|..], size, node, k, b, v) {
      LaterBatch(indexes, size, k, b);
      assert ReportedIn(indexes, size, node, k + 1, b, v);
    }
  }

  /** The indexes of a list with a given status. */
  function WithStatus(indexes: seq<int>, exiting: int -> bool): seq<int> {
    if indexes == [] then []
    else if exiting(indexes[0]) then [indexes[0]] + WithStatus(indexes[1..], exiting)
    else WithStatus(indexes[1..], exiting)
  }

  function Answer(batch: seq<int>, exiting: int -> bool): seq<Validator> {
    if batch == [] then [] else [Validator(batch[0], exiting(batch[0]))] + Answer(batch[1..], exiting)
  }

  lemma {:induction false} ExitingAnswer(batch: seq<int>, exiting: int -> bool)
    ensures Exiting(Answer(batch, exiting)) == WithStatus(batch, exiting)
  {
    if batch != [] {
      ExitingAnswer(batch[1..], exiting);
      var answer := Answer(batch, exiting);
      assert answer[0] == Validator(batch[0], exiting(batch[0])) && answer[1..] == Answer(batch[1..], exiting);
    }
  }

  lemma {:induction false} WithStatusAppend(one: seq<int>, two: seq<int>, exiting: int -> bool)
    ensures WithStatus(one + two, exiting) == WithStatus(one, exiting) + WithStatus(two, exiting)
  {
    if one == [] {
      assert one + two == two;
    } else {
      WithStatusAppend(one[1..], two, exiting);
      var all, head, tail := one + two, [one[0]], WithStatus(one[1..], exiting);
      assert all[0] == one[0] && all[1..] == one[1..] + two;
      assert head + (tail + WithStatus(two, exiting)) == (head + tail) + WithStatus(two, exiting);
    }
  }

  /** Asked in batches of any size, a node that answers every index reports each exiting index, once and in order. */
  lemma {:induction false} BatchesCoverAll(indexes: seq<int>, size: nat, node: Node, exiting: int -> bool)
    requires size > 0 && forall batch :: node(batch) == Some(Answer(batch, exiting))
    ensures Reported(indexes, size, node) == Some(WithStatus(indexes, exiting))
    decreases |indexes|
  {
    if indexes != [] {
      var batch := Batch(indexes, size);
      var rest := indexes[|batch|..];
      BatchesCoverAll(rest, size, node, exiting);
      ExitingAnswer(batch, exiting);
      WithStatusAppend(batch, rest, exiting);
      assert indexes == batch + rest;
      assert node(batch) == Some(Answer(batch, exiting));
    }
  }

  /** Deletes the keys one by one; deleting a missing key raises, which is None. */
  function DeleteAll<V>(exits: Dict<int, V>, keys: seq<int>): Option<Dict<int, V>>
    decreases |keys|
  {
    if keys == [] then Some(exits)
    else if keys[0] !in exits.at then None
    else DeleteAll(exits.Remove(keys[0]), keys[1..])
  }

  lemma {:induction false} DeleteAllAppend<V>(exits: Dict<int, V>, one: seq<int>, two: seq<int>)
    ensures DeleteAll(exits, one + two)
         == match DeleteAll(exits, one) case Some(rest) => DeleteAll(rest, two) case None => None
    decreases |one|
  {
    if one == [] {
      assert one + two == two;
    } else {
      assert (one + two)[0] == one[0] && (one + two)[1..] == one[1..] + two;
      if one[0] in exits.at {
        DeleteAllAppend(exits.Remove(one[0]), one[1..], two);
      }
    }
  }

  /** The elements of s that are not among keys, in order. */
  function Minus(s: seq<int>, keys: seq<int>): seq<int> {
    if s == [] then []
    else if s[0] in keys then Minus(s[1..], keys)
    else [s[0]] + Minus(s[1..], keys)
  }

  lemma {:induction false} MinusNothing(s: seq<int>)
    ensures Minus(s, []) == s
  {
    if s != [] {
      MinusNothing(s[1..]);
    }
  }

  lemma {:induction false} MinusCons(s: seq<int>, keys: seq<int>)
    requires keys != []
    ensures Minus(s, keys) == Minus(RemoveKey(s, keys[0]), keys[1..])
  {
    if s != [] {
      MinusCons(s[1..], keys);
      assert s[0] in keys <==> s[0] == keys[0] || s[0] in keys[1..];
    }
  }

  ghost predicate Deletable(keys: seq<int>, from: seq<int>) {
    NoDup(keys) && forall v :: v in keys ==> v in from
  }

  /** The deletions succeed exactly on distinct keys that are there, and leave the other entries alone. */
  lemma {:induction false} DeleteAllSpec<V(!new)>(exits: Dict<int, V>, keys: seq<int>)
    requires exits.Valid()
    ensures DeleteAll(exits, keys).Some? <==> Deletable(keys, exits.order)
    ensures DeleteAll(exits, keys).Some? ==>
      var rest := DeleteAll(exits, keys).value;
      && rest.Valid() && rest.order == Minus(exits.order, keys)
      && (forall v :: v in rest.at <==> v in exits.at && v !in keys)
      && (forall v :: v in rest.at ==> rest.at[v] == exits.at[v])
    decreases |keys|
  {
    if keys == [] {
      MinusNothing(exits.order);
    } else {
      MinusCons(exits.order, keys);
      var k, tail := keys[0], keys[1..];
      if k in exits.at {
        var less := exits.Remove(k);
        DeleteAllSpec(less, tail);
        DeletableCons(keys, exits.order, less.order);
        assert forall v :: v in keys <==> v == k || v in tail;
      } else {
        assert k in keys && k !in exits.order;
      }
    }
  }

  lemma DeletableCons(keys: seq<int>, from: seq<int>, less: seq<int>)
    requires keys != [] && keys[0] in from && forall v :: v in less <==> v in from && v != keys[0]
    ensures Deletable(keys, from) <==> Deletable(keys[1..], less)
  {
    var k, tail := keys[0], keys[1..];
    if Deletable(keys, from) {
      forall a, b | 0 <= a < b < |tail| ensures tail[a] != tail[b] { assert keys[a + 1] != keys[b + 1]; }
      forall a | 0 <= a < |tail| ensures tail[a] in less { assert keys[a + 1] != keys[0]; assert keys[a + 1] in keys; }
    }
    if Deletable(tail, less) {
      forall a, b | 0 <= a < b < |keys| ensures keys[a] != keys[b] {
        assert keys[b] == tail[b - 1] && tail[b - 1] in tail;
        if a > 0 { assert keys[a] == tail[a - 1]; }
      }
      forall v | v in keys ensures v in from { assert v == k || v in tail; }
    }
  }

  method RemoveBatch<V>(exits: Dict<int, V>, validators: seq<Validator>) returns (rest: Option<Dict<int, V>>)
    ensures rest == DeleteAll(exits, Exiting(validators))
  {
    var left := exits;
    for k := 0 to |validators|
      invariant DeleteAll(exits, Exiting(validators)) == DeleteAll(left, Exiting(validators[k..]))
    {
      var v := validators[k];
      assert validators[k..][1..] == validators[k + 1..];
      if v.exiting {
        assert Exiting(validators[k..])[1..] == Exiting(validators[k + 1..]);
        if v.index !in left.at {
          return None;
        }
        left := left.Remove(v.index);
      } else {
        assert Exiting(validators[k..]) == Exiting(validators[k + 1..]);
      }
    }
    return Some(left);
  }

  /** Asks the node batch by batch; a failed query raises as well. */
  method RemoveExiting<V>(exits: Dict<int, V>, size: int, node: Node) returns (rest: Option<Dict<int, V>>)
    ensures rest == if size >= 1 && Reported(exits.order, size, node).Some?
                    then DeleteAll(exits, Reported(exits.order, size, node).value) else None
  {
    if size < 1 {
      return None;
    }
    ghost var result := match Reported(exits.order, size, node) case Some(r) => DeleteAll(exits, r) case None => None;
    var current, indexes := exits, exits.order;
    while indexes != []
      invariant result == match Reported(indexes, size, node) case Some(r) => DeleteAll(current, r) case None => None
      decreases |indexes|
    {
      var batch := Batch(indexes, size);
      var answer := node(batch);
      if answer == None {
        return None;
      }
      var left := RemoveBatch(current, answer.value);
      ghost var later := Reported(indexes[|batch|..], size, node);
      if later.Some? {
        DeleteAllAppend(current, Exiting(answer.value), later.value);
      }
      if left == None {
        return None;
      }
      current, indexes := left.value, indexes[|batch|..];
    }
    return Some(current);
  }

  // ---- recovery and submission

  /** The dictionary share index -> share built for one validator; a repeated index overwrites. */
  function ShareDict<S>(shares: seq<Share<S>>): (d: Dict<int, S>)
    ensures d.Valid()
  {
    if shares == [] then Dict([], map[])
    else
      var last := shares[|shares| - 1];
      ShareDict(shares[..|shares| - 1]).Set(last.shareIndex, last.signature)
  }

  /** The removal of exiting validators raises no error. */
  ghost predicate Removable<S>(answers: Answers<S>, size: int, node: Node) {
    size >= 1 && Reported(Validators(answers), size, node).Some?
    && Deletable(Reported(Validators(answers), size, node).value, Validators(answers))
  }

  /** A submission is due for v: it is listed, has enough shares and is not reported as exiting. */
  predicate IsDue<S>(answers: Answers<S>, reported: seq<int>, threshold: int, v: int) {
    var shares := SharesOf(answers, v);
    shares != [] && |shares| >= threshold && v !in reported
  }

  ghost predicate Due<S>(answers: Answers<S>, size: int, node: Node, threshold: int, v: int)
    requires Removable(answers, size, node)
  {
    IsDue(answers, Reported(Validators(answers), size, node).value, threshold, v)
  }

  /** The due validators among vs, in order. */
  function DueOf<S>(answers: Answers<S>, reported: seq<int>, threshold: int, vs: seq<int>): seq<int> {
    if vs == [] then []
    else if IsDue(answers, reported, threshold, vs[0]) then [vs[0]] + DueOf(answers, reported, threshold, vs[1..])
    else DueOf(answers, reported, threshold, vs[1..])
  }

  function Recovered<G, S>(c: Curve<G, S>, p: int, answers: Answers<S>, v: int): Option<S>
    requires IsPrime(p)
  {
    Reconstruct(c, p, ShareDict(SharesOf(answers, v)))
  }

  /** submitted pairs the first due validators with their recovered signatures. */
  ghost predicate Follows<G, S>(c: Curve<G, S>, p: int, answers: Answers<S>, due: seq<int>, submitted: seq<(int, S)>)
    requires IsPrime(p)
  {
    && |submitted| <= |due|
    && forall k :: 0 <= k < |submitted| ==>
         submitted[k].0 == due[k] && Recovered(c, p, answers, due[k]) == Some(submitted[k].1)
  }

  /**
   * What a run submits: the recovered signatures of the due validators in the order of first mention,
   * up to the first one whose shares do not decode.
   */
  ghost predicate Outcome<G, S>(c: Curve<G, S>, p: int, answers: Answers<S>, size: int, node: Node, threshold: int,
                                submitted: seq<(int, S)>, finished: bool)
    requires IsPrime(p)
  {
    if !Removable(answers, size, node) then submitted == [] && !finished
    else
      var due := DueOf(answers, Reported(Validators(answers), size, node).value, threshold, Validators(answers));
      && Follows(c, p, answers, due, submitted)
      && (finished <==> |submitted| == |due|)
      && (!finished ==> Recovered(c, p, answers, due[|submitted|]) == None)
  }

  lemma {:induction false} DueOfAppend<S>(answers: Answers<S>, reported: seq<int>, threshold: int, one: seq<int>, two: seq<int>)
    ensures DueOf(answers, reported, threshold, one + two)
         == DueOf(answers, reported, threshold, one) + DueOf(answers, reported, threshold, two)
  {
    hide IsDue;
    if one == [] {
      assert one + two == two;
    } else {
      assert (one + two)[0] == one[0] && (one + two)[1..] == one[1..] + two;
      DueOfAppend(answers, reported, threshold, one[1..], two);
    }
  }

  /** What is reported is not due. */
  lemma {:induction false} DueOfMinus<S>(answers: Answers<S>, reported: seq<int>, threshold: int, vs: seq<int>)
    ensures DueOf(answers, reported, threshold, Minus(vs, reported)) == DueOf(answers, reported, threshold, vs)
  {
    if vs != [] {
      DueOfMinus(answers, reported, threshold, vs[1..]);
    }
  }

  /** The due validators among the first n and those from n on, starting with validator n itself. */
  lemma DueOfStep<S>(answers: Answers<S>, reported: seq<int>, threshold: int, vs: seq<int>, n: nat)
    requires n < |vs|
    ensures DueOf(answers, reported, threshold, vs[..n + 1])
         == DueOf(answers, reported, threshold, vs[..n]) + if IsDue(answers, reported, threshold, vs[n]) then [vs[n]] else []
    ensures DueOf(answers, reported, threshold, vs)
         == DueOf(answers, reported, threshold, vs[..n + 1]) + DueOf(answers, reported, threshold, vs[n + 1..])
  {
    hide IsDue;
    assert vs[..n + 1] == vs[..n] + [vs[n]] && vs == vs[..n + 1] + vs[n + 1..];
    DueOfAppend(answers, reported, threshold, vs[..n], [vs[n]]);
    DueOfAppend(answers, reported, threshold, vs[..n + 1], vs[n + 1..]);
  }

  /**
   * One run. The pairs (validator, signature) are those handed to submission, in order; finished
   * is false when an error ends the run early.
   */
  method ProcessExits<G, S(!new)>(c: Curve<G, S>, p: int, answers: Answers<S>, size: int, node: Node, threshold: int)
    returns (submitted: seq<(int, S)>, finished: bool)
    requires IsPrime(p)
    ensures Outcome(c, p, answers, size, node, threshold, submitted, finished)
  {
    hide Reconstruct, Reported, Validators, SharesOf, ShareDict, Deletable, DeleteAll, DueOf, Minus;
    var exits := FetchValidatorExits(answers);
    var remaining := RemoveExiting(exits, size, node);
    submitted := [];
    if remaining == None {
      if size >= 1 && Reported(Validators(answers), size, node).Some? {
        DeleteAllSpec(exits, Reported(Validators(answers), size, node).value);
      }
      return [], false;
    }
    var rest := remaining.value;
    ghost var reported := Reported(Validators(answers), size, node).value;
    DeleteAllSpec(exits, reported);
    DueOfMinus(answers, reported, threshold, exits.order);
    ghost var due := DueOf(answers, reported, threshold, rest.order);
    NothingDue(answers, reported, threshold, rest.order);
    for n := 0 to |rest.order|
      invariant |submitted| == |DueOf(answers, reported, threshold, rest.order[..n])|
      invariant Follows(c, p, answers, due, submitted)
    {
      var v := rest.order[n];
      var shares := rest.at[v];
      DueOfStep(answers, reported, threshold, rest.order, n);
      if |shares| >= threshold {
        var signatures := CollectSignatures(shares);
        var signature := ReconstructSharedBlsSignature(c, p, signatures);
        assert due[|submitted|] == v;
        if signature == None {
          return submitted, false;
        }
        submitted := submitted + [(v, signature.value)];
      }
    }
    assert rest.order[..|rest.order|] == rest.order;
    return submitted, true;
  }

  lemma NothingDue<S>(answers: Answers<S>, reported: seq<int>, threshold: int, vs: seq<int>)
    ensures DueOf(answers, reported, threshold, vs[..0]) == []
  {
  }

  method CollectSignatures<S>(shares: seq<Share<S>>) returns (signatures: Dict<int, S>)
    ensures signatures == ShareDict(shares)
  {
    signatures := Dict([], map[]);
    for k := 0 to |shares|
      invariant signatures == ShareDict(shares[..k])
    {
      assert shares[..k + 1][..k] == shares[..k];
      signatures := signatures.Set(shares[k].shareIndex, shares[k].signature);
    }
    assert shares[..|shares|] == shares;
  }
}
