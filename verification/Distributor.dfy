/** Selection of the winning distributor vote and its signatures (src/distributor/service.py). */
module Distributor {
  import opened Wrappers
  import opened Sorting
  import opened Addresses
  import opened Quorum

  datatype DistributorRewardVoteBody = DistributorRewardVoteBody(root: string, ipfsHash: string)

  datatype DistributorRewardVote = DistributorRewardVote(
    oracleAddress: string, nonce: int, updateTimestamp: int, signature: string, body: DistributorRewardVoteBody)

  /** What one run meets: the oracles' votes, and the distributor contract's answers. */
  datatype Env = Env(
    votes: seq<DistributorRewardVote>, nonce: int, nextUpdateTimestamp: int, minOracles: nat, rewardsRoot: string)

  datatype Submission = Submission(winner: DistributorRewardVoteBody, signatures: seq<string>)

  function Bodies(votes: seq<DistributorRewardVote>): seq<DistributorRewardVoteBody> {
    if votes == [] then [] else [votes[0].body] + Bodies(votes[1..])
  }

  function ForBody(winner: DistributorRewardVoteBody): DistributorRewardVote -> bool {
    (v: DistributorRewardVote) => v.body == winner
  }

  function WithNonce(nonce: int): DistributorRewardVote -> bool {
    (v: DistributorRewardVote) => v.nonce == nonce
  }

  function After(timestamp: int): DistributorRewardVote -> bool {
    (v: DistributorRewardVote) => v.updateTimestamp > timestamp
  }

  /** The order of the lower-cased addresses as strings. */
  function ByLowerAddress(): (DistributorRewardVote, DistributorRewardVote) -> bool {
    (v: DistributorRewardVote, w: DistributorRewardVote) => StringLe(Lower(v.oracleAddress), Lower(w.oracleAddress))
  }

  /** The order the reward service uses. */
  function ByIntAddress(): (DistributorRewardVote, DistributorRewardVote) -> bool {
    (v: DistributorRewardVote, w: DistributorRewardVote) => ToInt(v.oracleAddress) <= ToInt(w.oracleAddress)
  }

  lemma {:induction false} StringLeTotal(a: string, b: string)
    ensures StringLe(a, b) || StringLe(b, a)
  {
    if a != [] && b != [] && a[0] == b[0] {
      StringLeTotal(a[1..], b[1..]);
    }
  }

  lemma {:induction false} StringLeTransitive(a: string, b: string, c: string)
    requires StringLe(a, b) && StringLe(b, c)
    ensures StringLe(a, c)
  {
    if a != [] && b != [] && c != [] && a[0] == b[0] == c[0] {
      StringLeTransitive(a[1..], b[1..], c[1..]);
    }
  }

  lemma ByLowerAddressIsPreorder()
    ensures Preorder(ByLowerAddress())
  {
    var le := ByLowerAddress();
    forall v, w ensures le(v, w) || le(w, v) {
      StringLeTotal(Lower(v.oracleAddress), Lower(w.oracleAddress));
    }
    forall u, v, w | le(u, v) && le(v, w) ensures le(u, w) {
      StringLeTransitive(Lower(u.oracleAddress), Lower(v.oracleAddress), Lower(w.oracleAddress));
    }
  }

  /** The two services order the signatures of the same oracles alike. */
  lemma ServicesOrderAlike(votes: seq<DistributorRewardVote>)
    requires forall v :: v in votes ==> IsAddress(v.oracleAddress)
    ensures SortBy(votes, ByLowerAddress()) == SortBy(votes, ByIntAddress())
  {
    ByLowerAddressIsPreorder();
    var le, le' := ByLowerAddress(), ByIntAddress();
    forall v, w | v in votes && w in votes ensures le(v, w) == le'(v, w) {
      AddressOrder(v.oracleAddress, w.oracleAddress);
    }
    SortAgrees(votes, le, le');
  }

  lemma {:induction false} BodiesSpec(votes: seq<DistributorRewardVote>, b: DistributorRewardVoteBody)
    ensures |Bodies(votes)| == |votes|
    ensures Count(Bodies(votes), b) == |Filter(votes, ForBody(b))|
  {
    if votes != [] {
      BodiesSpec(votes[1..], b);
      assert Bodies(votes)[1..] == Bodies(votes[1..]);
    }
  }

  function Signatures(votes: seq<DistributorRewardVote>): seq<string> {
    if votes == [] then [] else Signatures(votes[..|votes| - 1]) + [votes[|votes| - 1].signature]
  }

  /** The votes a run counts: the current nonce, and a timestamp after the next-update time. */
  function Eligible(env: Env): seq<DistributorRewardVote> {
    Filter(Filter(env.votes, WithNonce(env.nonce)), After(env.nextUpdateTimestamp))
  }

  function Signers(env: Env, winner: DistributorRewardVoteBody): seq<DistributorRewardVote> {
    Chosen(Eligible(env), ByLowerAddress(), ForBody(winner), env.minOracles)
  }

  /** A submission is made when the most common body of the eligible votes has enough and is not yet on chain. */
  ghost predicate Submits(env: Env, submission: Option<Submission>) {
    var bodies := Bodies(Eligible(env));
    if bodies == [] || Count(bodies, MostCommon(bodies)) < env.minOracles || MostCommon(bodies).root == env.rewardsRoot then
      submission == None
    else
      submission == Some(Submission(MostCommon(bodies), Signatures(Signers(env, MostCommon(bodies)))))
  }

  method CollectSignatures(sorted: seq<DistributorRewardVote>, winner: DistributorRewardVoteBody, minOracles: nat)
    returns (signatures: seq<string>)
    ensures var all := Filter(sorted, ForBody(winner));
      signatures == Signatures(if minOracles <= |all| then all[..minOracles] else all)
  {
    ghost var all, p := Filter(sorted, ForBody(winner)), ForBody(winner);
    signatures := [];
    var n := 0;
    assert all[..0] == [];
    while n < |sorted|
      invariant 0 <= n <= |sorted| && |signatures| <= minOracles && |signatures| <= |all|
      invariant all[|signatures|..] == Filter(sorted[n..], p)
      invariant signatures == Signatures(all[..|signatures|])
    {
      var vote := sorted[n];
      if |signatures| >= minOracles {
        break;
      }
      assert sorted[n..][1..] == sorted[n + 1..] && sorted[n..][0] == vote;
      if vote.body == winner {
        ghost var k := |signatures|;
        assert all[k..] == [vote] + Filter(sorted[n + 1..], p);
        assert all[k] == all[k..][0] == vote;
        assert all[..k + 1][..k] == all[..k];
        assert all[k + 1..] == all[k..][1..];
        signatures := signatures + [vote.signature];
      }
      n := n + 1;
    }
    if |signatures| < minOracles {
      assert sorted[n..] == [];
      assert all[|signatures|..] == [];
    }
    assert all[..|all|] == all;
  }

  method ProcessDistributorRewards(env: Env) returns (submission: Option<Submission>)
    ensures Submits(env, submission)
  {
    var votes := Filter(env.votes, WithNonce(env.nonce));
    if votes == [] {
      assert Eligible(env) == [];
      return None;
    }
    votes := Filter(votes, After(env.nextUpdateTimestamp));
    if votes == [] {
      return None;
    }
    var bodies := Bodies(votes);
    var winner := MostCommon(bodies);
    if Count(bodies, winner) < env.minOracles {
      return None;
    }
    if winner.root == env.rewardsRoot {
      return None;
    }
    votes := SortBy(votes, ByLowerAddress());
    var signatures := CollectSignatures(votes, winner, env.minOracles);
    submission := Some(Submission(winner, signatures));
  }

  /**
   * A submission carries exactly minOracles signatures, of eligible votes for the winner by ascending
   * address and none with a lower address left out, and no body has more eligible votes.
   */
  lemma SubmissionSpec(env: Env, submission: Option<Submission>)
    requires Submits(env, submission) && submission.Some?
    ensures var winner := submission.value.winner;
      var signers := Signers(env, winner);
      && |submission.value.signatures| == |signers| == env.minOracles
      && (forall k :: 0 <= k < |signers| ==> submission.value.signatures[k] == signers[k].signature)
      && (forall v :: v in signers ==>
            v in env.votes && v.nonce == env.nonce && v.updateTimestamp > env.nextUpdateTimestamp && v.body == winner)
      && multiset(signers) <= multiset(Eligible(env))
      && (forall b :: Count(Bodies(Eligible(env)), b) <= Count(Bodies(Eligible(env)), winner))
      && Sorted(signers, ByLowerAddress())
      && (forall v, w :: v in signers && w in Eligible(env) && w.body == winner && w !in signers ==>
            StringLe(Lower(v.oracleAddress), Lower(w.oracleAddress)))
      && winner.root != env.rewardsRoot
  {
    var winner, votes := submission.value.winner, Eligible(env);
    MostCommonSpec(Bodies(votes));
    BodiesSpec(votes, winner);
    ByLowerAddressIsPreorder();
    ChosenSpec(votes, ByLowerAddress(), ForBody(winner), env.minOracles);
    var at := EligibleSpec(env);
    hide Chosen, Eligible, Preorder, Filter, Bodies, Count, MostCommon, StringLe, Lower;
    var signers := Signers(env, winner);
    SignaturesSpec(signers);
    forall v | v in signers ensures v.body == winner {
      assert ForBody(winner)(v);
    }
    forall v, w | v in signers && w in votes && w.body == winner && w !in signers
      ensures StringLe(Lower(v.oracleAddress), Lower(w.oracleAddress))
    {
      assert ForBody(winner)(w);
      assert ByLowerAddress()(v, w);
    }
  }

  /** Vote v counts: it has the current nonce and a timestamp after the next-update time. */
  predicate Counts(env: Env, v: DistributorRewardVote) {
    v.nonce == env.nonce && v.updateTimestamp > env.nextUpdateTimestamp
  }

  /** The eligible votes are all that count, as often and in the order received: those at the positions at. */
  lemma EligibleSpec(env: Env) returns (at: seq<nat>)
    ensures forall v :: v in Eligible(env) <==> v in env.votes && v.nonce == env.nonce && v.updateTimestamp > env.nextUpdateTimestamp
    ensures |at| == |Eligible(env)| && forall i, j :: 0 <= i < j < |at| ==> at[i] < at[j]
    ensures forall i :: 0 <= i < |at| ==>
      at[i] < |env.votes| && Counts(env, env.votes[at[i]]) && Eligible(env)[i] == env.votes[at[i]]
    ensures forall k :: 0 <= k < |env.votes| && Counts(env, env.votes[k]) ==> k in at
  {
    var both := v => Counts(env, v);
    FilterTwice(env.votes, WithNonce(env.nonce), After(env.nextUpdateTimestamp), both);
    FilterSpec(env.votes, both);
    at := FilterPositions(env.votes, both);
    assert forall v :: both(v) <==> Counts(env, v);
    hide Filter;
  }

  /** The positions of the votes received for a body that count. */
  ghost function VotesFor(env: Env, b: DistributorRewardVoteBody): set<int> {
    set k | 0 <= k < |env.votes| && Counts(env, env.votes[k]) && env.votes[k].body == b
  }

  ghost function Tally(env: Env, b: DistributorRewardVoteBody): nat {
    |VotesFor(env, b)|
  }

  lemma TallyIsCount(env: Env, b: DistributorRewardVoteBody)
    ensures Count(Bodies(Eligible(env)), b) == Tally(env, b)
  {
    var counts, both := v => Counts(env, v), v => Counts(env, v) && v.body == b;
    FilterTwice(env.votes, WithNonce(env.nonce), After(env.nextUpdateTimestamp), counts);
    FilterTwice(env.votes, counts, ForBody(b), both);
    BodiesSpec(Eligible(env), b);
    FilterTally(env.votes, both);
    hide Filter, Count, Bodies;
    assert Satisfying(env.votes, both) == VotesFor(env, b);
  }

  /** Vote k is the first received for a body that no other exceeds: what most_common(1) picks. */
  ghost predicate Leading(env: Env, k: int) {
    && 0 <= k < |env.votes| && Counts(env, env.votes[k])
    && (forall j :: 0 <= j < |env.votes| && Counts(env, env.votes[j]) ==> Tally(env, env.votes[j].body) <= Tally(env, env.votes[k].body))
    && (forall j :: 0 <= j < k && Counts(env, env.votes[j]) ==> Tally(env, env.votes[j].body) < Tally(env, env.votes[k].body))
  }

  lemma {:induction false} BodiesAt(votes: seq<DistributorRewardVote>, k: nat)
    requires k < |votes|
    ensures |Bodies(votes)| == |votes| && Bodies(votes)[k] == votes[k].body
  {
    BodiesLength(votes);
    if k > 0 {
      BodiesAt(votes[1..], k - 1);
    }
  }

  lemma {:induction false} BodiesLength(votes: seq<DistributorRewardVote>)
    ensures |Bodies(votes)| == |votes|
  {
    if votes != [] {
      BodiesLength(votes[1..]);
    }
  }

  /** The most common body of the eligible votes is that of the leading vote. */
  lemma LeadingVote(env: Env) returns (k: nat)
    requires Bodies(Eligible(env)) != []
    ensures Leading(env, k) && env.votes[k].body == MostCommon(Bodies(Eligible(env)))
  {
    hide MostCommon, Count, Bodies, Eligible, Tally;
    var votes := Eligible(env);
    var bodies, winner := Bodies(votes), MostCommon(Bodies(votes));
    var at := EligibleSpec(env);
    MostCommonSpec(bodies);
    BodiesLength(votes);
    var i :| 0 <= i < |bodies| && bodies[i] == winner && forall j :: 0 <= j < i ==> Count(bodies, bodies[j]) < Count(bodies, bodies[i]);
    k := at[i];
    BodiesAt(votes, i);
    TallyIsCount(env, winner);
    forall j | 0 <= j < |env.votes| && Counts(env, env.votes[j])
      ensures Tally(env, env.votes[j].body) <= Tally(env, winner)
      ensures j < k ==> Tally(env, env.votes[j].body) < Tally(env, winner)
    {
      TallyIsCount(env, env.votes[j].body);
      var x :| 0 <= x < |at| && at[x] == j;
      BodiesAt(votes, x);
    }
  }

  /**
   * In terms of the votes received: a run submits exactly if the first vote for an unexceeded body has
   * a body with at least minOracles votes and a root that is not yet on chain; it submits that body.
   */
  lemma SubmitsExactly(env: Env, submission: Option<Submission>)
    requires Submits(env, submission)
    ensures submission.Some? <==> exists k ::
      Leading(env, k) && Tally(env, env.votes[k].body) >= env.minOracles && env.votes[k].body.root != env.rewardsRoot
    ensures submission.Some? ==> exists k :: Leading(env, k) && env.votes[k].body == submission.value.winner
  {
    hide MostCommon, Count, Bodies, Eligible, Tally, Signers;
    if Bodies(Eligible(env)) != [] {
      var k := LeadingVote(env);
      TallyIsCount(env, env.votes[k].body);
      forall j | Leading(env, j) ensures j == k { }
    } else {
      forall k ensures !Leading(env, k) {
        if Leading(env, k) { NoneEligible(env, k); }
      }
    }
  }

  lemma NoneEligible(env: Env, k: int)
    requires 0 <= k < |env.votes| && Counts(env, env.votes[k])
    ensures Bodies(Eligible(env)) != []
  {
    var at := EligibleSpec(env);
    BodiesLength(Eligible(env));
  }

  lemma {:induction false} SignaturesSpec(votes: seq<DistributorRewardVote>)
    ensures |Signatures(votes)| == |votes|
    ensures forall k :: 0 <= k < |votes| ==> Signatures(votes)[k] == votes[k].signature
  {
    if votes != [] {
      SignaturesSpec(votes[..|votes| - 1]);
    }
  }
}
