/** What one run of the reward service does, in terms of the votes cached before it and those it receives. */
module RewardRuns {
  import opened Wrappers
  import opened Quorum
  import opened RewardsCache
  import opened Rewards
  import opened RewardNonces

  /** The votes there are in a run: those cached before it, and those received with the current nonce. */
  ghost function Present(data: Data, round: Round): set<RewardVote> {
    (set t, v | t in data && v in data[t] :: v) + (set v | v in round.votes && v.nonce == round.nonce)
  }

  /** The votes for a body. */
  ghost function Voters(votes: set<RewardVote>, body: RewardVoteBody): set<RewardVote> {
    set v | v in votes && v.body == body
  }

  /** The timestamps above t. */
  ghost function NewerStamps(votes: set<RewardVote>, t: int): set<int> {
    set v | v in votes && Stamp(v) > t :: Stamp(v)
  }

  /** Vote v is for a body with at least threshold different votes, at one of the k newest timestamps. */
  ghost predicate Quorate(votes: set<RewardVote>, k: nat, threshold: nat, v: RewardVote) {
    v in votes && |Voters(votes, v.body)| >= threshold && |NewerStamps(votes, Stamp(v))| < k
  }

  /** A run gets past its guards: the contract allows an update, and some vote has the current nonce. */
  ghost predicate Proceeds(round: Round) {
    round.canUpdate && exists v :: v in round.votes && v.nonce == round.nonce
  }

  // ---- the k newest

  /** Being among the newest k is having fewer than k above. */
  lemma NewestExact(stamps: set<int>, k: nat, t: int)
    requires t in stamps
    ensures t in Newest(stamps, k) <==> |set u | u in stamps && u > t| < k
  {
    NewestSpec(stamps, k);
    var top, above := Newest(stamps, k), set u | u in stamps && u > t;
    if t in top {
      assert above <= top - {t};
      SubsetSize(above, top - {t});
    } else {
      SubsetSame(top, stamps);
      forall x | x in top ensures x in above { assert x != t; }
      SubsetSize(top, above);
    }
  }

  // ---- the cache after the update

  /** The updated cache holds exactly the votes present at the newest timestamps. */
  lemma UpdatedHolds(data: Data, k: nat, round: Round, v: RewardVote)
    requires ValidData(data)
    ensures var now, votes := Updated(data, Admitted(round), k), Present(data, round);
      v in Bucket(now, Stamp(v)) <==> v in votes && |NewerStamps(votes, Stamp(v))| < k
  {
    hide Updated, AddVotes, Admitted, Newest;
    var at := AdmittedSpec(round);
    var t, votes, added := Stamp(v), Present(data, round), AddVotes(data, Admitted(round));
    AddVotesMembers(data, Admitted(round), t);
    UpdatedBucket(data, Admitted(round), k, t);
    StampsPresent(data, round);
    StampInBuckets(data);
    assert v in Bucket(data, t) <==> t in data && v in data[t];
    assert v in Bucket(added, t) <==> v in votes;
    if v in votes {
      NewestExact(added.Keys, k, t);
      assert (set u | u in added.Keys && u > t) == NewerStamps(votes, t);
    }
  }

  lemma StampInBuckets(data: Data)
    requires ValidData(data)
    ensures forall t, v :: t in data && v in data[t] ==> Stamp(v) == t
  {
  }

  lemma UpdatedBucket(data: Data, votes: seq<RewardVote>, k: nat, t: int)
    ensures var added := AddVotes(data, votes);
      Bucket(Updated(data, votes, k), t) == if t in Newest(added.Keys, k) then Bucket(added, t) else []
  {
    hide AddVotes, Newest;
    NewestSpec(AddVotes(data, votes).Keys, k);
  }

  /** The timestamps after adding are those of the votes present. */
  lemma StampsPresent(data: Data, round: Round)
    requires ValidData(data)
    ensures var added, votes := AddVotes(data, Admitted(round)), Present(data, round);
      added.Keys == set v | v in votes :: Stamp(v)
  {
    hide AddVotes, Admitted;
    var at := AdmittedSpec(round);
    AddedKeys(data, Admitted(round));
    var all := set v | v in Present(data, round) :: Stamp(v);
    forall t | t in data ensures t in all {
      assert data[t][0] in data[t] && data[t][0] in Present(data, round);
    }
  }

  // ---- when a run submits

  /** The different votes of a bucket for a body. */
  ghost function VotersIn(bucket: seq<RewardVote>, body: RewardVoteBody): set<RewardVote> {
    set v | v in bucket && v.body == body
  }

  /** Without repetition, counting the votes for a body is counting the different votes for it. */
  lemma {:induction false} DistinctCount(bucket: seq<RewardVote>, body: RewardVoteBody)
    requires NoVoteTwice(bucket)
    ensures Count(Bodies(bucket), body) == |VotersIn(bucket, body)|
  {
    if bucket == [] {
      assert VotersIn(bucket, body) == {};
    } else {
      hide VotersIn, NoVoteTwice;
      NoneTwiceInTail(bucket);
      DistinctCount(bucket[1..], body);
      VotersInNext(bucket, body);
      assert Bodies(bucket)[1..] == Bodies(bucket[1..]);
    }
  }

  lemma NoneTwiceInTail(bucket: seq<RewardVote>)
    requires NoVoteTwice(bucket) && bucket != []
    ensures NoVoteTwice(bucket[1..]) && bucket[0] !in bucket[1..]
  {
    var tail := bucket[1..];
    forall i, j | 0 <= i < j < |tail| ensures tail[i] != tail[j] { assert bucket[i + 1] != bucket[j + 1]; }
    forall i | 0 <= i < |tail| ensures tail[i] != bucket[0] { assert bucket[i + 1] != bucket[0]; }
  }

  lemma VotersInNext(bucket: seq<RewardVote>, body: RewardVoteBody)
    requires bucket != [] && bucket[0] !in bucket[1..]
    ensures |VotersIn(bucket, body)| == |VotersIn(bucket[1..], body)| + if bucket[0].body == body then 1 else 0
  {
    var head, rest := bucket[0], VotersIn(bucket[1..], body);
    assert bucket == [head] + bucket[1..];
    assert VotersIn(bucket, body) == rest + if head.body == body then {head} else {};
  }

  /** At a kept timestamp the count for a body is the number of different votes present for it. */
  lemma CountPresent(data: Data, k: nat, round: Round, body: RewardVoteBody)
    requires ValidData(data) && ValidData(Updated(data, Admitted(round), k))
    ensures var now, t := Updated(data, Admitted(round), k), body.updateTimestamp;
      t in now ==> Count(Bodies(now[t]), body) == |Voters(Present(data, round), body)|
  {
    hide Updated, Admitted, Count, Bodies;
    var now, votes, t := Updated(data, Admitted(round), k), Present(data, round), body.updateTimestamp;
    if t in now {
      var bucket := now[t];
      assert NoVoteTwice(bucket);
      DistinctCount(bucket, body);
      assert bucket[0] in bucket;
      UpdatedHolds(data, k, round, bucket[0]);
      var here := VotersIn(bucket, body);
      forall v ensures v in here <==> v in Voters(votes, body) {
        if v.body == body {
          UpdatedHolds(data, k, round, v);
        }
      }
      assert here == Voters(votes, body);
    }
  }

  /** The quorums of the updated cache are the quorate votes. */
  lemma QuorumsPresent(data: Data, k: nat, round: Round, v: RewardVote)
    requires ValidData(data) && ValidData(Updated(data, Admitted(round), k))
    ensures var now, t := Updated(data, Admitted(round), k), Stamp(v);
      Quorate(Present(data, round), k, round.threshold, v) <==>
        t in now && v in now[t] && Count(Bodies(now[t]), v.body) >= round.threshold
  {
    hide Updated, Admitted, Count, Bodies, ValidData;
    UpdatedHolds(data, k, round, v);
    CountPresent(data, k, round, v.body);
  }

  /** A quorum at a timestamp is the quorum of some vote there. */
  lemma QuorumVote(data: Data, threshold: nat, t: int)
    requires ValidData(data)
    ensures QuorumAt(data, threshold, t) <==>
      t in data && exists v :: v in data[t] && Stamp(v) == t && Count(Bodies(data[t]), v.body) >= threshold
  {
    hide Count;
    if QuorumAt(data, threshold, t) {
      var b :| b in Bodies(data[t]) && Count(Bodies(data[t]), b) >= threshold;
      BodiesSpec(data[t], b);
    }
    if t in data {
      forall v | v in data[t] ensures v.body in Bodies(data[t]) { BodiesSpec(data[t], v.body); }
    }
  }

  /**
   * A run submits exactly if it gets past its guards and some vote present is for a body with threshold
   * different votes at one of the k newest timestamps. The winner is then such a body of the smallest
   * timestamp, and none at that timestamp has more votes.
   */
  lemma SubmitsExactly(data: Data, k: nat, round: Round)
    requires ValidData(data)
    ensures var votes, out := Present(data, round), Step(data, k, round).1;
      && (out.Some? <==> Proceeds(round) && exists v :: Quorate(votes, k, round.threshold, v))
      && (out.Some? ==> exists v :: Quorate(votes, k, round.threshold, v) && v.body == out.value.winner)
      && (out.Some? ==> forall v :: Quorate(votes, k, round.threshold, v) ==> out.value.winner.updateTimestamp <= Stamp(v))
      && (out.Some? ==> forall v :: v in votes && Stamp(v) == out.value.winner.updateTimestamp ==>
            |Voters(votes, v.body)| <= |Voters(votes, out.value.winner)|)
  {
    hide Updated, Admitted, Winner, Count, Bodies, ValidData, QuorumAt, Quorate, Signers, Present, Voters;
    var at := AdmittedSpec(round);
    assert Admitted(round) != [] ==> Admitted(round)[0] in Admitted(round);
    if Proceeds(round) {
      UpdatedIsValid(data, Admitted(round), k);
      var now, votes := Updated(data, Admitted(round), k), Present(data, round);
      WinnerSpec(now, round.threshold);
      forall v ensures Quorate(votes, k, round.threshold, v) ==> QuorumAt(now, round.threshold, Stamp(v)) {
        QuorumsPresent(data, k, round, v);
        QuorumVote(now, round.threshold, Stamp(v));
      }
      if Winner(now, round.threshold).Some? {
        WinnerPresent(data, k, round);
      }
    }
  }

  lemma WinnerPresent(data: Data, k: nat, round: Round)
    requires ValidData(data) && ValidData(Updated(data, Admitted(round), k))
    requires Winner(Updated(data, Admitted(round), k), round.threshold).Some?
    ensures var winner, votes := Winner(Updated(data, Admitted(round), k), round.threshold).value.1, Present(data, round);
      && (exists v :: Quorate(votes, k, round.threshold, v) && v.body == winner)
      && (forall v :: v in votes && Stamp(v) == winner.updateTimestamp ==> |Voters(votes, v.body)| <= |Voters(votes, winner)|)
  {
    hide Updated, Admitted, Winner, Count, Bodies, ValidData, Quorate, Present, Voters, HasQuorum;
    var now, votes := Updated(data, Admitted(round), k), Present(data, round);
    var (bucket, winner) := Winner(now, round.threshold).value;
    WinnerSpec(now, round.threshold);
    CountPresent(data, k, round, winner);
    var v := WinnerVote(now, round.threshold);
    QuorumsPresent(data, k, round, v);
    forall u | u in votes && Stamp(u) == winner.updateTimestamp ensures |Voters(votes, u.body)| <= |Voters(votes, winner)| {
      CountPresent(data, k, round, u.body);
    }
  }

  /** Some vote of the winning bucket is for the winner. */
  lemma WinnerVote(data: Data, threshold: nat) returns (v: RewardVote)
    requires ValidData(data) && Winner(data, threshold).Some?
    ensures v.body == Winner(data, threshold).value.1 && v in Winner(data, threshold).value.0
  {
    hide Bodies, Count, Buckets, FirstQuorum, ValidData, Lists;
    BucketsSpec(data);
    BucketsNonEmpty(data, Buckets(data));
    var n := FirstQuorumSpec(Buckets(data), threshold);
    var (bucket, winner) := Winner(data, threshold).value;
    MostCommonSpec(Bodies(bucket));
    BodiesSpec(bucket, winner);
    v :| v in bucket && v.body == winner;
  }

  /**
   * From an empty cache: enough different received votes for one body, with the current nonce and at the
   * newest timestamp, make a submission.
   */
  lemma FreshQuorumSubmits(k: nat, round: Round, quorum: set<RewardVote>, body: RewardVoteBody)
    requires k >= 1 && round.canUpdate
    requires quorum != {} && |quorum| >= round.threshold
    requires forall v :: v in quorum ==> v in round.votes && v.nonce == round.nonce && v.body == body
    requires forall v :: v in round.votes && v.nonce == round.nonce ==> Stamp(v) <= body.updateTimestamp
    ensures Step(map[], k, round).1.Some?
  {
    var votes := Present(map[], round);
    hide Step;
    SubmitsExactly(map[], k, round);
    var v :| v in quorum;
    VoterSubset(quorum, Voters(votes, body));
    assert NewerStamps(votes, Stamp(v)) == {};
    assert Quorate(votes, k, round.threshold, v);
  }

  lemma {:induction false} VoterSubset(a: set<RewardVote>, b: set<RewardVote>)
    requires a <= b
    ensures |a| <= |b|
  {
    if a != {} {
      var x :| x in a;
      VoterSubset(a - {x}, b - {x});
    }
  }

  // ---- what a run leaves and submits

  /**
   * The cache afterwards: as before if the run stopped at a guard, empty if it made a submission that
   * went through, and otherwise exactly the votes present at the k newest timestamps.
   */
  lemma CacheAfter(data: Data, k: nat, round: Round)
    requires ValidData(data)
    ensures var votes, (data', out) := Present(data, round), Step(data, k, round);
      && (!Proceeds(round) ==> data' == data)
      && (Proceeds(round) && out.Some? && round.submits ==> data' == map[])
      && (Proceeds(round) && !(out.Some? && round.submits) ==>
            forall v :: v in Bucket(data', Stamp(v)) <==> v in votes && |NewerStamps(votes, Stamp(v))| < k)
  {
    hide Updated, Admitted, Winner, Present, NewerStamps, Signers;
    var at := AdmittedSpec(round);
    assert Admitted(round) != [] ==> Admitted(round)[0] in Admitted(round);
    UpdatedIsValid(data, Admitted(round), k);
    forall v {
      UpdatedHolds(data, k, round, v);
    }
  }

  /**
   * The submitted bytes are the signatures of threshold votes for the winner, those of the lowest
   * addresses in ascending order, one after the other and nothing else.
   */
  lemma SubmittedBytes(data: Data, k: nat, round: Round) returns (signers: seq<RewardVote>)
    requires ValidData(data) && Step(data, k, round).1.Some?
    ensures var out, now := Step(data, k, round).1.value, Updated(data, Admitted(round), k);
      && LowestSigners(signers, Bucket(now, out.winner.updateTimestamp), out.winner, round.threshold)
      && |out.signatures| == Offset(signers, |signers|)
      && (forall i :: 0 <= i < |signers| ==> StandsAt(out.signatures, signers, i))
  {
    hide Updated, Admitted, Winner, Signers, Join, LowestSigners, Offset, StandsAt;
    UpdatedIsValid(data, Admitted(round), k);
    var now := Updated(data, Admitted(round), k);
    var (bucket, winner) := Winner(now, round.threshold).value;
    WinnerSpec(now, round.threshold);
    SubmissionSpec(now, round.threshold);
    signers := Signers(bucket, winner, round.threshold);
    JoinSpec(signers);
  }

  /** Block i of n bytes is the signature of vote i. */
  ghost predicate BlockAt(bytes: seq<bv8>, votes: seq<RewardVote>, n: nat, i: nat)
    requires i < |votes|
  {
    0 <= n * i <= n * (i + 1) <= |bytes| && bytes[n * i..n * (i + 1)] == votes[i].signature
  }

  /** Signatures of one length: the submitted bytes are one block of that length for each of the threshold signers. */
  lemma SubmittedBlocks(data: Data, k: nat, round: Round, n: nat) returns (signers: seq<RewardVote>)
    requires ValidData(data) && Step(data, k, round).1.Some?
    requires forall v :: v in Present(data, round) ==> |v.signature| == n
    ensures var out, now := Step(data, k, round).1.value, Updated(data, Admitted(round), k);
      && LowestSigners(signers, Bucket(now, out.winner.updateTimestamp), out.winner, round.threshold)
      && |out.signatures| == n * round.threshold
      && forall i :: 0 <= i < |signers| ==> BlockAt(out.signatures, signers, n, i)
  {
    hide Updated, Admitted, Step, Present, StandsAt, BlockAt;
    signers := SubmittedBytes(data, k, round);
    SignersOfLength(data, k, round, Step(data, k, round).1.value.winner, signers, n);
    OffsetOfEqual(signers, |signers|, n);
    forall i | 0 <= i < |signers| ensures BlockAt(Step(data, k, round).1.value.signatures, signers, n, i) {
      BlockOf(Step(data, k, round).1.value.signatures, signers, n, i);
    }
  }

  lemma SignersOfLength(data: Data, k: nat, round: Round, winner: RewardVoteBody, signers: seq<RewardVote>, n: nat)
    requires ValidData(data) && forall v :: v in Present(data, round) ==> |v.signature| == n
    requires LowestSigners(signers, Bucket(Updated(data, Admitted(round), k), winner.updateTimestamp), winner, round.threshold)
    ensures forall v :: v in signers ==> |v.signature| == n
  {
    hide Updated, Admitted, Present;
    forall v | v in signers ensures |v.signature| == n {
      UpdatedHolds(data, k, round, v);
    }
  }

  lemma BlockOf(bytes: seq<bv8>, votes: seq<RewardVote>, n: nat, i: nat)
    requires i < |votes| && StandsAt(bytes, votes, i) && forall v :: v in votes ==> |v.signature| == n
    ensures BlockAt(bytes, votes, n, i)
  {
    OffsetOfEqual(votes, i, n);
    OffsetOfEqual(votes, i + 1, n);
    hide Offset;
    assert n * (i + 1) == n * i + n;
  }
}
