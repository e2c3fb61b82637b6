/** What a run over the oracles' answers submits, in terms of their lines and of the node's answers (src/exits/service.py). */
module ExitRuns {
  import opened Wrappers
  import opened Dicts
  import opened PrimeField
  import opened Crypto
  import opened Exits

  // ---- what the grouping means, line by line

  /** Line k of oracle o names validator v. */
  predicate Names<S>(answers: Answers<S>, o: int, k: int, v: int) {
    0 <= o < |answers| && answers[o].Some? && 0 <= k < |answers[o].value| && answers[o].value[k].index == v
  }

  /** One line comes before another: oracle by oracle, each from its first line on. */
  predicate Before(a: (int, int), b: (int, int)) {
    a.0 < b.0 || (a.0 == b.0 && a.1 < b.1)
  }

  /** The line names v, and the share is the one it gives. */
  ghost predicate ShareOfLine<S>(answers: Answers<S>, v: int, line: (int, int), share: Share<S>) {
    Names(answers, line.0, line.1, v) && share == Share(v, answers[line.0].value[line.1].signature, line.0)
  }

  /** The shares are those of the lines at, which are all lines that name v, in order. */
  ghost predicate SharesAt<S>(answers: Answers<S>, v: int, shares: seq<Share<S>>, at: seq<(int, int)>) {
    && |at| == |shares|
    && (forall i :: 0 <= i < |at| ==> ShareOfLine(answers, v, at[i], shares[i]))
    && (forall i, j :: 0 <= i < j < |at| ==> Before(at[i], at[j]))
    && (forall o, k :: Names(answers, o, k, v) ==> (o, k) in at)
  }

  /** The same for the lines of one oracle. */
  ghost predicate ListedAt<S>(entries: seq<Entry<S>>, v: int, o: int, shares: seq<Share<S>>, at: seq<int>) {
    && |at| == |shares|
    && (forall i :: 0 <= i < |at| ==>
          0 <= at[i] < |entries| && entries[at[i]].index == v && shares[i] == Share(v, entries[at[i]].signature, o))
    && (forall i, j :: 0 <= i < j < |at| ==> at[i] < at[j])
    && (forall k :: 0 <= k < |entries| && entries[k].index == v ==> k in at)
  }

  lemma {:induction false} ListedPositions<S>(entries: seq<Entry<S>>, v: int, o: int) returns (at: seq<int>)
    ensures ListedAt(entries, v, o, ListedBy(entries, v, o), at)
  {
    at := [];
    if entries != [] {
      hide ListedAt;
      var n := |entries| - 1;
      at := ListedPositions(entries[..n], v, o);
      assert entries == entries[..n] + [entries[n]];
      ListedAtNext(entries[..n], entries[n], v, o, ListedBy(entries[..n], v, o), at);
      at := if entries[n].index == v then at + [n] else at;
    }
  }

  lemma ListedAtNext<S>(before: seq<Entry<S>>, e: Entry<S>, v: int, o: int, shares: seq<Share<S>>, at: seq<int>)
    requires ListedAt(before, v, o, shares, at)
    ensures e.index == v ==> ListedAt(before + [e], v, o, shares + [Share(v, e.signature, o)], at + [|before|])
    ensures e.index != v ==> ListedAt(before + [e], v, o, shares + [], at)
  {
    var entries, longer := before + [e], at + [|before|];
    forall k | 0 <= k < |entries| && entries[k].index == v ensures if e.index == v then k in longer else k in at {
      if k < |before| { assert before[k] == entries[k] && k in at; } else { assert longer[|at|] == k; }
    }
  }

  /** A validator's shares are one for each line that names it, repeated or not, in the order of the lines. */
  lemma {:induction false} SharesPositions<S>(answers: Answers<S>, v: int) returns (at: seq<(int, int)>)
    ensures SharesAt(answers, v, SharesOf(answers, v), at)
  {
    at := [];
    if answers != [] {
      hide SharesAt, ListedAt, ListedBy;
      var o := |answers| - 1;
      at := SharesPositions(answers[..o], v);
      assert answers == answers[..o] + [answers[o]];
      if answers[o].Some? {
        var ks := ListedPositions(answers[o].value, v, o);
        SharesAtNext(answers[..o], answers[o].value, v, SharesOf(answers[..o], v), at, ListedBy(answers[o].value, v, o), ks);
        at := at + LinesOf(o, ks);
      } else {
        SharesAtSkip(answers[..o], v, SharesOf(answers[..o], v), at);
        assert SharesOf(answers[..o], v) + [] == SharesOf(answers[..o], v);
      }
    }
  }

  lemma NamesMore<S>(before: Answers<S>, last: Option<seq<Entry<S>>>, v: int)
    ensures forall o, k :: o != |before| ==> (Names(before + [last], o, k, v) <==> Names(before, o, k, v))
    ensures forall k :: Names(before + [last], |before|, k, v) <==>
      last.Some? && 0 <= k < |last.value| && last.value[k].index == v
  {
  }

  /** The lines of oracle o at the given positions. */
  function LinesOf(o: int, ks: seq<int>): (lines: seq<(int, int)>)
    ensures |lines| == |ks| && forall i :: 0 <= i < |ks| ==> lines[i] == (o, ks[i])
  {
    seq(|ks|, i requires 0 <= i < |ks| => (o, ks[i]))
  }

  lemma SharesAtNext<S>(before: Answers<S>, entries: seq<Entry<S>>, v: int, shares: seq<Share<S>>, at: seq<(int, int)>,
                        more: seq<Share<S>>, ks: seq<int>)
    requires SharesAt(before, v, shares, at) && ListedAt(entries, v, |before|, more, ks)
    ensures SharesAt(before + [Some(entries)], v, shares + more, at + LinesOf(|before|, ks))
  {
    hide LinesOf;
    var o := |before|;
    var lines, all := at + LinesOf(o, ks), shares + more;
    AllLinesNext(before, entries, v, at, ks);
    forall i | 0 <= i < |lines| ensures ShareOfLine(before + [Some(entries)], v, lines[i], all[i]) && (i < |at| <==> lines[i].0 < o) {
      if i < |at| {
        ShareOfEarlier(before, Some(entries), v, at[i], shares[i]);
      } else {
        assert lines[i] == (o, ks[i - |at|]);
      }
    }
    AscendingLines(entries, v, o, more, ks);
    hide Names, ListedAt;
    forall i, j | 0 <= i < j < |lines| ensures Before(lines[i], lines[j]) {
      if |at| <= i {
        assert ks[i - |at|] < ks[j - |at|];
      }
    }
  }

  lemma ShareOfEarlier<S>(before: Answers<S>, last: Option<seq<Entry<S>>>, v: int, line: (int, int), share: Share<S>)
    requires ShareOfLine(before, v, line, share)
    ensures ShareOfLine(before + [last], v, line, share) && line.0 < |before|
  {
  }

  lemma AscendingLines<S>(entries: seq<Entry<S>>, v: int, o: int, shares: seq<Share<S>>, ks: seq<int>)
    requires ListedAt(entries, v, o, shares, ks)
    ensures forall i, j :: 0 <= i < j < |ks| ==> ks[i] < ks[j]
  {
  }

  lemma AllLinesNext<S>(before: Answers<S>, entries: seq<Entry<S>>, v: int, at: seq<(int, int)>, ks: seq<int>)
    requires forall o, k :: Names(before, o, k, v) ==> (o, k) in at
    requires forall k :: 0 <= k < |entries| && entries[k].index == v ==> k in ks
    ensures forall o, k :: Names(before + [Some(entries)], o, k, v) ==> (o, k) in at + LinesOf(|before|, ks)
  {
    hide LinesOf, Names;
    NamesMore(before, Some(entries), v);
    forall o, k | Names(before + [Some(entries)], o, k, v) ensures (o, k) in at + LinesOf(|before|, ks) {
      if o != |before| {
        assert Names(before, o, k, v);
      } else {
        var i :| 0 <= i < |ks| && ks[i] == k;
        assert LinesOf(o, ks)[i] == (o, k);
      }
    }
  }

  lemma SharesAtSkip<S>(before: Answers<S>, v: int, shares: seq<Share<S>>, at: seq<(int, int)>)
    requires SharesAt(before, v, shares, at)
    ensures SharesAt(before + [None], v, shares, at)
  {
    forall i | 0 <= i < |at| ensures ShareOfLine(before + [None], v, at[i], shares[i]) {
      ShareOfEarlier(before, None, v, at[i], shares[i]);
    }
    NamesMore(before, None, v);
    hide Names, ShareOfLine;
  }

  lemma {:induction false} IndexesAt<S>(entries: seq<Entry<S>>)
    ensures |Indexes(entries)| == |entries| && forall k :: 0 <= k < |entries| ==> Indexes(entries)[k] == entries[k].index
  {
    if entries != [] {
      IndexesAt(entries[..|entries| - 1]);
    }
  }

  /** The lines at are all lines of all oracles in order, and name the given validators. */
  ghost predicate IndexesAtLines<S>(answers: Answers<S>, indexes: seq<int>, at: seq<(int, int)>) {
    && |at| == |indexes|
    && (forall i :: 0 <= i < |at| ==> Names(answers, at[i].0, at[i].1, indexes[i]))
    && (forall i, j :: 0 <= i < j < |at| ==> Before(at[i], at[j]))
    && (forall o, k, v :: Names(answers, o, k, v) ==> (o, k) in at)
  }

  lemma {:induction false} LinesInOrder<S>(answers: Answers<S>) returns (at: seq<(int, int)>)
    ensures IndexesAtLines(answers, AllIndexes(answers), at)
  {
    at := [];
    if answers != [] {
      hide IndexesAtLines, Indexes;
      var o := |answers| - 1;
      at := LinesInOrder(answers[..o]);
      assert answers == answers[..o] + [answers[o]];
      if answers[o].Some? {
        var entries := answers[o].value;
        IndexesAt(entries);
        var ks := seq(|entries|, k => k);
        LinesNext(answers[..o], entries, AllIndexes(answers[..o]), at, Indexes(entries), ks);
        at := at + LinesOf(o, ks);
      } else {
        LinesSkip(answers[..o], AllIndexes(answers[..o]), at);
        assert AllIndexes(answers[..o]) + [] == AllIndexes(answers[..o]);
      }
    }
  }

  lemma LinesSkip<S>(before: Answers<S>, indexes: seq<int>, at: seq<(int, int)>)
    requires IndexesAtLines(before, indexes, at)
    ensures IndexesAtLines(before + [None], indexes, at)
  {
    var answers: Answers<S> := before + [None];
    forall i | 0 <= i < |at| ensures Names(answers, at[i].0, at[i].1, indexes[i]) {
      assert Names(before, at[i].0, at[i].1, indexes[i]);
    }
    forall o, k, v | Names(answers, o, k, v) ensures (o, k) in at {
      assert Names(before, o, k, v);
    }
  }

  lemma LinesNext<S>(before: Answers<S>, entries: seq<Entry<S>>, indexes: seq<int>, at: seq<(int, int)>, more: seq<int>, ks: seq<int>)
    requires IndexesAtLines(before, indexes, at)
    requires |more| == |ks| == |entries| && forall k :: 0 <= k < |entries| ==> ks[k] == k && more[k] == entries[k].index
    ensures IndexesAtLines(before + [Some(entries)], indexes + more, at + LinesOf(|before|, ks))
  {
    hide LinesOf;
    var answers, o := before + [Some(entries)], |before|;
    var lines, all := at + LinesOf(o, ks), indexes + more;
    forall i | 0 <= i < |at| ensures Names(answers, lines[i].0, lines[i].1, all[i]) && lines[i].0 < o {
      assert Names(before, at[i].0, at[i].1, indexes[i]);
    }
    forall i | |at| <= i < |lines| ensures Names(answers, lines[i].0, lines[i].1, all[i]) && lines[i] == (o, i - |at|) {
      assert ks[i - |at|] == i - |at| && all[i] == more[i - |at|];
    }
    forall x, k, v | Names(answers, x, k, v) ensures (x, k) in lines {
      if x != o {
        assert Names(before, x, k, v);
      } else {
        assert lines[|at| + k] == (o, k);
      }
    }
  }

  lemma {:induction false} FirstSeenMembers(indexes: seq<int>)
    ensures NoDup(FirstSeen(indexes)) && forall v :: v in FirstSeen(indexes) <==> v in indexes
  {
    if indexes != [] {
      FirstSeenMembers(indexes[..|indexes| - 1]);
      assert indexes == indexes[..|indexes| - 1] + [indexes[|indexes| - 1]];
    }
  }

  /** An element listed earlier occurs before any occurrence of the later one. */
  lemma {:induction false} FirstSeenOrder(indexes: seq<int>, i: nat, j: nat) returns (a: nat)
    requires i < j < |FirstSeen(indexes)|
    ensures a < |indexes| && indexes[a] == FirstSeen(indexes)[i]
    ensures forall b :: 0 <= b <= a ==> indexes[b] != FirstSeen(indexes)[j]
    decreases |indexes|
  {
    var init := indexes[..|indexes| - 1];
    var seen := FirstSeen(init);
    FirstSeenMembers(init);
    if j < |seen| {
      a := FirstSeenOrder(init, i, j);
    } else {
      assert seen[i] in seen;
      a :| 0 <= a < |init| && init[a] == seen[i];
      assert forall b :: 0 <= b <= a ==> indexes[b] == init[b] && init[b] in init;
    }
  }

  /** Some line names v that comes before every line that names w. */
  ghost predicate NamedBefore<S>(answers: Answers<S>, v: int, w: int) {
    exists o, k :: Names(answers, o, k, v) && forall x, y :: Names(answers, x, y, w) ==> Before((o, k), (x, y))
  }

  /** The validators are listed once each, in the order in which the lines first name them. */
  lemma ValidatorsSpec<S>(answers: Answers<S>)
    ensures NoDup(Validators(answers))
    ensures forall v :: v in Validators(answers) <==> exists o, k :: Names(answers, o, k, v)
    ensures forall i, j :: 0 <= i < j < |Validators(answers)| ==> NamedBefore(answers, Validators(answers)[i], Validators(answers)[j])
  {
    var all := AllIndexes(answers);
    FirstSeenMembers(all);
    var at := LinesInOrder(answers);
    hide AllIndexes, FirstSeen;
    forall v ensures v in Validators(answers) <==> exists o, k :: Names(answers, o, k, v) {
      if v in all {
        var a :| 0 <= a < |all| && all[a] == v;
        assert Names(answers, at[a].0, at[a].1, v);
      }
      if o, k :| Names(answers, o, k, v) {
        var b := LineOf(answers, all, at, o, k, v);
      }
    }
    forall i, j | 0 <= i < j < |Validators(answers)| ensures NamedBefore(answers, Validators(answers)[i], Validators(answers)[j]) {
      var a := FirstSeenOrder(all, i, j);
      assert Names(answers, at[a].0, at[a].1, all[a]);
      forall x, y | Names(answers, x, y, Validators(answers)[j]) ensures Before((at[a].0, at[a].1), (x, y)) {
        var b := LineOf(answers, all, at, x, y, Validators(answers)[j]);
      }
    }
  }

  lemma LineOf<S>(answers: Answers<S>, indexes: seq<int>, at: seq<(int, int)>, o: int, k: int, v: int) returns (b: nat)
    requires IndexesAtLines(answers, indexes, at) && Names(answers, o, k, v)
    ensures b < |indexes| && at[b] == (o, k) && indexes[b] == v
  {
    b :| 0 <= b < |at| && at[b] == (o, k);
    assert Names(answers, at[b].0, at[b].1, indexes[b]);
  }

  // ---- what an outcome submits

  lemma {:induction false} IndexesMembers<S>(entries: seq<Entry<S>>, v: int, o: int)
    ensures v in Indexes(entries) <==> ListedBy(entries, v, o) != []
  {
    if entries != [] {
      IndexesMembers(entries[..|entries| - 1], v, o);
    }
  }

  /** A validator is named exactly if it has a share. */
  lemma {:induction false} AllIndexesMembers<S>(answers: Answers<S>, v: int)
    ensures v in AllIndexes(answers) <==> SharesOf(answers, v) != []
  {
    if answers != [] {
      var o := |answers| - 1;
      AllIndexesMembers(answers[..o], v);
      if answers[o].Some? {
        IndexesMembers(answers[o].value, v, o);
      }
    }
  }

  lemma {:induction false} DueOfMembers<S>(answers: Answers<S>, reported: seq<int>, threshold: int, vs: seq<int>)
    requires NoDup(vs)
    ensures var due := DueOf(answers, reported, threshold, vs);
      NoDup(due) && forall v :: v in due <==> v in vs && IsDue(answers, reported, threshold, v)
  {
    hide IsDue;
    if vs != [] {
      var tail := vs[1..];
      forall a, b | 0 <= a < b < |tail| ensures tail[a] != tail[b] { assert vs[a + 1] != vs[b + 1]; }
      assert vs[0] !in tail by {
        forall a | 0 <= a < |tail| ensures tail[a] != vs[0] { assert vs[a + 1] != vs[0]; }
      }
      DueOfMembers(answers, reported, threshold, tail);
      assert forall v :: v in vs <==> v == vs[0] || v in tail;
    }
  }

  ghost predicate Submitted<S>(submitted: seq<(int, S)>, v: int) {
    exists k :: 0 <= k < |submitted| && submitted[k].0 == v
  }

  /** No validator is submitted twice or when not due, and a run that ends early has left a due one with no signature. */
  lemma OutcomeSpec<G, S(!new)>(c: Curve<G, S>, p: int, answers: Answers<S>, size: int, node: Node, threshold: int,
                                submitted: seq<(int, S)>, finished: bool)
    requires IsPrime(p) && Removable(answers, size, node)
    requires Outcome(c, p, answers, size, node, threshold, submitted, finished)
    ensures forall j, k :: 0 <= j < k < |submitted| ==> submitted[j].0 != submitted[k].0
    ensures forall k :: 0 <= k < |submitted| ==>
      Due(answers, size, node, threshold, submitted[k].0) && Recovered(c, p, answers, submitted[k].0) == Some(submitted[k].1)
    ensures finished ==> forall v :: Due(answers, size, node, threshold, v) ==> Submitted(submitted, v)
    ensures !finished ==> exists v :: Due(answers, size, node, threshold, v) && Recovered(c, p, answers, v) == None
  {
    hide Reconstruct, Recovered, SharesOf, DueOf, Reported, AllIndexes, FirstSeen;
    var all, reported := Validators(answers), Reported(Validators(answers), size, node).value;
    FirstSeenMembers(AllIndexes(answers));
    DueOfMembers(answers, reported, threshold, all);
    var due := DueOf(answers, reported, threshold, all);
    forall k | 0 <= k < |due| ensures Due(answers, size, node, threshold, due[k]) { assert due[k] in due; }
    if finished {
      forall v | Due(answers, size, node, threshold, v) ensures Submitted(submitted, v) {
        AllIndexesMembers(answers, v);
        var k :| 0 <= k < |due| && due[k] == v;
        assert submitted[k].0 == v;
      }
    }
  }

  /** The lines that name a validator. */
  ghost function Lines<S>(answers: Answers<S>, v: int): set<(int, int)> {
    set o, k | 0 <= o < |answers| && answers[o].Some? && 0 <= k < |answers[o].value| && answers[o].value[k].index == v :: (o, k)
  }

  lemma {:induction false} AscendingSize(at: seq<(int, int)>, all: set<(int, int)>)
    requires (forall i, j :: 0 <= i < j < |at| ==> Before(at[i], at[j])) && forall l :: l in at <==> l in all
    ensures |at| == |all|
  {
    if at == [] {
      assert forall l :: l in at <==> l in all;
      assert all == {} by { forall l ensures l !in all { assert l in at <==> l in all; } }
    } else {
      var n := |at| - 1;
      var last := at[n];
      assert forall l :: l in at <==> l == last || l in at[..n];
      assert last !in at[..n];
      AscendingSize(at[..n], all - {last});
    }
  }

  /** A validator has one share for each line that names it. */
  lemma SharesCount<S>(answers: Answers<S>, v: int)
    ensures |SharesOf(answers, v)| == |Lines(answers, v)|
  {
    var at := SharesPositions(answers, v);
    hide SharesOf;
    forall l ensures l in at <==> l in Lines(answers, v) {
      if l in Lines(answers, v) { assert Names(answers, l.0, l.1, v); }
      if l in at {
        var i :| 0 <= i < |at| && at[i] == l;
        assert Names(answers, at[i].0, at[i].1, v);
      }
    }
    AscendingSize(at, Lines(answers, v));
  }

  /**
   * Due are exactly the validators named by some line and by at least threshold lines that no batch
   * reports as exiting; and the removal raises if a batch fails.
   */
  lemma DueSpec<S>(answers: Answers<S>, size: nat, node: Node, threshold: int, v: int)
    ensures Removable(answers, size, node) ==> size > 0 && !BatchFails(Validators(answers), size, node)
    ensures Removable(answers, size, node) ==> (Due(answers, size, node, threshold, v) <==>
      && Lines(answers, v) != {} && |Lines(answers, v)| >= threshold
      && !exists k: nat, batch :: ReportedIn(Validators(answers), size, node, k, batch, v))
  {
    SharesCount(answers, v);
    assert SharesOf(answers, v) == [] <==> |SharesOf(answers, v)| == 0;
    assert Lines(answers, v) == {} <==> |Lines(answers, v)| == 0;
    if Removable(answers, size, node) {
      ReportedSpec(Validators(answers), size, node);
    }
  }

  /** A batch that fails, or a batch size that is no batch size, ends the run before any submission. */
  lemma FailedQueryEndsRun<G, S(!new)>(c: Curve<G, S>, p: int, answers: Answers<S>, size: int, node: Node, threshold: int,
                                       submitted: seq<(int, S)>, finished: bool)
    requires IsPrime(p) && Outcome(c, p, answers, size, node, threshold, submitted, finished)
    requires size < 1 || BatchFails(Validators(answers), size, node)
    ensures submitted == [] && !finished
  {
    hide Follows, DueOf, BatchFails;
    if size >= 1 {
      ReportedSpec(Validators(answers), size, node);
    }
  }

  // ---- a node that answers every index

  lemma {:induction false} WithStatusSpec(indexes: seq<int>, exiting: int -> bool)
    requires NoDup(indexes)
    ensures NoDup(WithStatus(indexes, exiting))
    ensures forall v :: v in WithStatus(indexes, exiting) <==> v in indexes && exiting(v)
  {
    if indexes != [] {
      var head, tail := indexes[0], indexes[1..];
      forall a, b | 0 <= a < b < |tail| ensures tail[a] != tail[b] { assert indexes[a + 1] != indexes[b + 1]; }
      forall a | 0 <= a < |tail| ensures tail[a] != head { assert indexes[a + 1] != indexes[0]; }
      assert indexes == [head] + tail;
      WithStatusSpec(tail, exiting);
    }
  }

  /** Then the removal raises nothing, and what it reports are the listed validators that exit. */
  lemma AnsweringNode<S>(answers: Answers<S>, size: int, node: Node, exiting: int -> bool)
    requires size >= 1 && forall batch :: node(batch) == Some(Answer(batch, exiting))
    ensures Removable(answers, size, node)
    ensures forall v :: v in Reported(Validators(answers), size, node).value <==> v in Validators(answers) && exiting(v)
  {
    hide Reported, AllIndexes, FirstSeen, WithStatus;
    FirstSeenMembers(AllIndexes(answers));
    BatchesCoverAll(Validators(answers), size, node, exiting);
    WithStatusSpec(Validators(answers), exiting);
  }

  lemma {:induction false} DueOfOrder<S>(answers: Answers<S>, reported: seq<int>, threshold: int, vs: seq<int>, i: nat, j: nat)
    returns (a: nat, b: nat)
    requires i < j < |DueOf(answers, reported, threshold, vs)|
    ensures a < b < |vs| && vs[a] == DueOf(answers, reported, threshold, vs)[i] && vs[b] == DueOf(answers, reported, threshold, vs)[j]
  {
    hide IsDue;
    var tail := DueOf(answers, reported, threshold, vs[1..]);
    if !IsDue(answers, reported, threshold, vs[0]) {
      a, b := DueOfOrder(answers, reported, threshold, vs[1..], i, j);
      a, b := a + 1, b + 1;
    } else if i > 0 {
      a, b := DueOfOrder(answers, reported, threshold, vs[1..], i - 1, j - 1);
      a, b := a + 1, b + 1;
    } else {
      a := 0;
      b := DueOfIn(answers, reported, threshold, vs[1..], j - 1);
      b := b + 1;
    }
  }

  lemma {:induction false} DueOfIn<S>(answers: Answers<S>, reported: seq<int>, threshold: int, vs: seq<int>, j: nat) returns (b: nat)
    requires j < |DueOf(answers, reported, threshold, vs)|
    ensures b < |vs| && vs[b] == DueOf(answers, reported, threshold, vs)[j]
  {
    hide IsDue;
    if IsDue(answers, reported, threshold, vs[0]) && j == 0 {
      b := 0;
    } else {
      b := DueOfIn(answers, reported, threshold, vs[1..], if IsDue(answers, reported, threshold, vs[0]) then j - 1 else j);
      b := b + 1;
    }
  }

  /** The submissions are in the order in which the lines first name the validators. */
  lemma SubmittedInOrder<G, S>(c: Curve<G, S>, p: int, answers: Answers<S>, size: int, node: Node, threshold: int,
                               submitted: seq<(int, S)>, finished: bool)
    requires IsPrime(p) && Outcome(c, p, answers, size, node, threshold, submitted, finished)
    ensures forall j, k :: 0 <= j < k < |submitted| ==> NamedBefore(answers, submitted[j].0, submitted[k].0)
  {
    hide Recovered, DueOf, Reported, NamedBefore, Validators;
    forall j, k | 0 <= j < k < |submitted| ensures NamedBefore(answers, submitted[j].0, submitted[k].0) {
      ValidatorsSpec(answers);
      var a, b := DueOfOrder(answers, Reported(Validators(answers), size, node).value, threshold, Validators(answers), j, k);
    }
  }
}
