/** Two inputs on which the reward service does not keep what its votes suggest (src/rewards/service.py). */
module RewardsFindings {
  import opened Wrappers
  import opened Sorting
  import opened Quorum
  import opened RewardsCache
  import opened Rewards

  const BODY := RewardVoteBody(7, "root", "hash", 1)

  function VoteOf(oracle: string, nonce: int, signature: bv8): RewardVote {
    RewardVote(oracle, nonce, [signature], BODY)
  }

  lemma AddOne(data: Data, v: RewardVote)
    ensures AddVotes(data, [v]) == data[Stamp(v) := AddNew(Bucket(data, Stamp(v)), v)]
  {
    assert [v][..0] == [] && AddVotes(data, []) == data;
  }

  lemma BodiesOf(v: RewardVote, w: RewardVote)
    requires v.body == w.body == BODY
    ensures Bodies([v]) == [BODY] && Bodies([v, w]) == [BODY, BODY]
    ensures Count([BODY], BODY) == 1 && Count([BODY, BODY], BODY) == 2
  {
    assert [v, w][1..] == [w] && [v][1..] == [] && [w][1..] == [];
    assert [BODY, BODY][1..] == [BODY] && [BODY][1..] == [];
  }

  /** Two votes for the body in two updates: both are kept in its one bucket. */
  lemma TwoUpdates(v: RewardVote, w: RewardVote)
    requires v != w && v.body == w.body == BODY
    ensures Updated(map[], [v], 100) == map[7 := [v]]
    ensures Updated(map[7 := [v]], [w], 100) == map[7 := [v, w]]
  {
    var none: Data := map[];
    var one: Data := map[7 := [v]];
    AddOne(none, v);
    AddOne(one, w);
    assert [] + [v] == [v] && [v] + [w] == [v, w];
    assert AddVotes(none, [v]) == one;
    assert AddVotes(one, [w]) == map[7 := [v, w]];
    KeepsOne(one, 100);
    KeepsOne(map[7 := [v, w]], 100);
  }

  lemma KeepsOne(data: Data, k: nat)
    requires data.Keys == {7} && k >= 1
    ensures Restrict(data, Newest(data.Keys, k)) == data
  {
  }

  /** A cache with one bucket of votes for one body submits when the votes suffice. */
  lemma OneBucket(votes: seq<RewardVote>, threshold: nat)
    requires votes != [] && ValidData(map[7 := votes])
    requires Bodies(votes) == [BODY] || Bodies(votes) == [BODY, BODY]
    ensures Winner(map[7 := votes], threshold)
         == if Count(Bodies(votes), BODY) >= threshold then Some((votes, BODY)) else None
  {
    var data: Data := map[7 := votes];
    assert data.Keys == {7} && Oldest(data.Keys) == 7;
    assert data - {7} == map[];
    assert Buckets(data) == [votes];
    assert [votes][1..] == [] && FirstQuorum([], threshold) == None;
    MostCommonSpec(Bodies(votes));
    assert MostCommon(Bodies(votes)) == BODY;
  }

  /** Votes for a body that differ only in nonce or signature count twice: one oracle can make a quorum of two. */
  lemma OneOracleMakesQuorum(oracle: string)
    ensures var v, w := VoteOf(oracle, 5, 1), VoteOf(oracle, 5, 2);
      var data := Updated(Updated(map[], [v], 100), [w], 100);
      data == map[7 := [v, w]] && ValidData(data) && Winner(data, 2) == Some(([v, w], BODY))
  {
    var v, w := VoteOf(oracle, 5, 1), VoteOf(oracle, 5, 2);
    TwoUpdates(v, w);
    BodiesOf(v, w);
    OneBucket([v, w], 2);
  }

  /**
   * Votes cached under an earlier nonce are never removed when the nonce moves on, so a submission
   * can carry a signature that was given for the earlier nonce.
   */
  lemma StaleNonceSubmitted(a: string, b: string)
    ensures var v, w := VoteOf(a, 5, 1), VoteOf(b, 6, 2);
      var first, second := Round(true, [v], 5, 2, true), Round(true, [w], 6, 2, true);
      && RunCache([first, second], 100).1 == [None, Some(Submission(BODY, Join(Signers([v, w], BODY, 2))))]
      && v in Signers([v, w], BODY, 2) && v.nonce != second.nonce
  {
    var v, w := VoteOf(a, 5, 1), VoteOf(b, 6, 2);
    var first, second := Round(true, [v], 5, 2, true), Round(true, [w], 6, 2, true);
    hide *;
    FirstRound(v, w, first);
    SecondRound(v, w, second);
    TwoRounds(first, second, 100);
    BothSign(v, w);
  }

  lemma FirstRound(v: RewardVote, w: RewardVote, round: Round)
    requires v.body == w.body == BODY && v != w && round == Round(true, [v], v.nonce, 2, true)
    ensures ValidData(map[7 := [v]]) && Step(map[], 100, round) == (map[7 := [v]], None)
  {
    TwoUpdates(v, w);
    BodiesOf(v, w);
    OneBucket([v], 2);
    AdmitsOne(v, round);
    StepOf(map[], 100, round);
  }

  lemma SecondRound(v: RewardVote, w: RewardVote, round: Round)
    requires v.body == w.body == BODY && v != w && round == Round(true, [w], w.nonce, 2, true)
    ensures ValidData(map[7 := [v]])
    ensures Step(map[7 := [v]], 100, round) == (map[], Some(Submission(BODY, Join(Signers([v, w], BODY, 2)))))
  {
    hide Signers, Join;
    TwoUpdates(v, w);
    BodiesOf(v, w);
    OneBucket([v, w], 2);
    AdmitsOne(w, round);
    StepOf(map[7 := [v]], 100, round);
  }

  lemma StepOf(data: Data, k: nat, round: Round)
    requires ValidData(data) && round.canUpdate && round.submits && Admitted(round) != []
    ensures var now := Updated(data, Admitted(round), k);
      ValidData(now) && Step(data, k, round) == (if Winner(now, round.threshold) == None then now else map[], Decide(now, round.threshold))
  {
    hide Winner, Updated, Signers, Join;
    UpdatedIsValid(data, Admitted(round), k);
  }

  lemma TwoRounds(first: Round, second: Round, k: nat)
    ensures var one := Step(map[], k, first);
      ValidData(one.0) && RunCache([first, second], k).1 == [one.1, Step(one.0, k, second).1]
  {
    assert [first][..0] == [] && [first, second][..1] == [first];
    StepIsValid(map[], k, first);
    assert RunCache([], k) == (map[], []) && [] + [Step(map[], k, first).1] == [Step(map[], k, first).1];
    assert RunCache([first], k) == (Step(map[], k, first).0, [Step(map[], k, first).1]);
  }

  lemma AdmitsOne(v: RewardVote, round: Round)
    requires round.votes == [v] && round.nonce == v.nonce
    ensures Admitted(round) == [v]
  {
    var p := WithNonce(v.nonce);
    assert p(v);
    assert [v][1..] == [] && Filter([], p) == [] && [v] + [] == [v];
    assert Filter([v], p) == [v];
  }

  lemma BothSign(v: RewardVote, w: RewardVote)
    requires v != w && v.body == w.body == BODY
    ensures v in Signers([v, w], BODY, 2)
  {
    BodiesOf(v, w);
    SignersSpec([v, w], BODY, 2);
    hide Signers;
    var s := Signers([v, w], BODY, 2);
    assert s[0] in s && s[1] in s && s == [s[0], s[1]];
    assert multiset(s)[w] <= multiset([v, w])[w] == 1;
  }
}
