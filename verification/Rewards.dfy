/** Selection of the winning reward vote and its signatures, over whole runs of the keeper (src/rewards/service.py). */
module Rewards {
  import opened Wrappers
  import opened Sorting
  import opened Addresses
  import opened Quorum
  import opened RewardsCache

  function Bodies(votes: seq<RewardVote>): seq<RewardVoteBody> {
    if votes == [] then [] else [votes[0].body] + Bodies(votes[1..])
  }

  function ForBody(winner: RewardVoteBody): RewardVote -> bool {
    (v: RewardVote) => v.body == winner
  }

  function WithNonce(nonce: int): RewardVote -> bool {
    (v: RewardVote) => v.nonce == nonce
  }

  function ByAddress(): (RewardVote, RewardVote) -> bool {
    (v: RewardVote, w: RewardVote) => ToInt(v.oracleAddress) <= ToInt(w.oracleAddress)
  }

  lemma ByAddressIsPreorder()
    ensures Preorder(ByAddress())
  {
  }

  lemma {:induction false} BodiesSpec(votes: seq<RewardVote>, b: RewardVoteBody)
    ensures |Bodies(votes)| == |votes|
    ensures Count(Bodies(votes), b) == |Filter(votes, ForBody(b))|
    ensures b in Bodies(votes) <==> exists v :: v in votes && v.body == b
  {
    if votes != [] {
      BodiesSpec(votes[1..], b);
      assert votes == [votes[0]] + votes[1..];
      assert Bodies(votes)[1..] == Bodies(votes[1..]);
      assert votes[0] in votes;
    }
  }

  lemma {:induction false} BodiesAt(votes: seq<RewardVote>, k: nat)
    requires k < |votes|
    ensures |Bodies(votes)| == |votes| && Bodies(votes)[k] == votes[k].body
  {
    BodiesLength(votes);
    if k > 0 {
      BodiesAt(votes[1..], k - 1);
    }
  }

  /** The buckets of the cache by ascending timestamp of their first vote. */
  function Buckets(data: Data): seq<seq<RewardVote>>
    decreases |data.Keys|
  {
    if data == map[] then []
    else
      var t := Oldest(data.Keys);
      OneLess(data, t);
      [data[t]] + Buckets(data - {t})
  }

  lemma OneLess(data: Data, t: int)
    requires t in data
    ensures (data - {t}).Keys == data.Keys - {t}
    ensures |(data - {t}).Keys| < |data.Keys|
  {
    assert (data - {t}).Keys == data.Keys - {t};
  }

  /** The buckets are those of the cache, by strictly ascending timestamp of their first vote. */
  ghost predicate Lists(data: Data, buckets: seq<seq<RewardVote>>) {
    && (forall k :: 0 <= k < |buckets| ==> buckets[k] != [] && Stamp(buckets[k][0]) in data && data[Stamp(buckets[k][0])] == buckets[k])
    && (forall j, k :: 0 <= j < k < |buckets| ==> Stamp(buckets[j][0]) < Stamp(buckets[k][0]))
    && (forall t :: t in data ==> data[t] in buckets)
  }

  /** Sorting by the first vote of each bucket is sorting by key. */
  lemma {:induction false} BucketsSpec(data: Data)
    requires ValidData(data)
    ensures Lists(data, Buckets(data))
    decreases |data.Keys|
  {
    if data != map[] {
      var t := Oldest(data.Keys);
      OneLess(data, t);
      BucketsSpec(data - {t});
      ListsMore(data, t, Buckets(data - {t}));
    }
  }

  lemma ListsMore(data: Data, t: int, buckets: seq<seq<RewardVote>>)
    requires ValidData(data) && t in data && (forall u :: u in data ==> t <= u)
    requires Lists(data - {t}, buckets)
    ensures Lists(data, [data[t]] + buckets)
  {
    assert data[t][0] in data[t];
    assert Stamp(data[t][0]) == t;
    hide ValidData;
    var more := [data[t]] + buckets;
    forall k | 1 <= k < |more|
      ensures more[k] != [] && Stamp(more[k][0]) in data && data[Stamp(more[k][0])] == more[k] && t < Stamp(more[k][0])
    {
      assert more[k] == buckets[k - 1] && Stamp(buckets[k - 1][0]) in data - {t};
    }
    forall u | u in data ensures data[u] in more {
      if u != t { assert u in data - {t} && data[u] in buckets; }
    }
  }

  lemma BucketOf(data: Data, buckets: seq<seq<RewardVote>>, t: int) returns (k: nat)
    requires ValidData(data) && Lists(data, buckets) && t in data
    ensures k < |buckets| && buckets[k] == data[t] && Stamp(buckets[k][0]) == t
  {
    k :| 0 <= k < |buckets| && buckets[k] == data[t];
    assert data[t][0] in data[t];
  }

  /** The first bucket whose most common body has at least threshold votes. */
  function FirstQuorum(buckets: seq<seq<RewardVote>>, threshold: nat): Option<(seq<RewardVote>, RewardVoteBody)>
    requires forall k :: 0 <= k < |buckets| ==> buckets[k] != []
  {
    if buckets == [] then None
    else
      BodiesLength(buckets[0]);
      var bodies := Bodies(buckets[0]);
      if Count(bodies, MostCommon(bodies)) >= threshold then Some((buckets[0], MostCommon(bodies)))
      else FirstQuorum(buckets[1..], threshold)
  }

  lemma {:induction false} BodiesLength(votes: seq<RewardVote>)
    ensures |Bodies(votes)| == |votes|
  {
    if votes != [] {
      BodiesLength(votes[1..]);
    }
  }

  method FindEarliestWinner(buckets: seq<seq<RewardVote>>, threshold: nat)
    returns (result: Option<(seq<RewardVote>, RewardVoteBody)>)
    requires forall k :: 0 <= k < |buckets| ==> buckets[k] != []
    ensures result == FirstQuorum(buckets, threshold)
  {
    for n := 0 to |buckets|
      invariant FirstQuorum(buckets, threshold) == FirstQuorum(buckets[n..], threshold)
    {
      assert buckets[n..][1..] == buckets[n + 1..];
      BodiesLength(buckets[n]);
      var bodies := Bodies(buckets[n]);
      var winner := MostCommon(bodies);
      if Count(bodies, winner) >= threshold {
        return Some((buckets[n], winner));
      }
    }
    return None;
  }

  function Winner(data: Data, threshold: nat): Option<(seq<RewardVote>, RewardVoteBody)>
    requires ValidData(data)
  {
    BucketsSpec(data);
    FirstQuorum(Buckets(data), threshold)
  }

  /** Body b has a quorum at timestamp t of the cache. */
  ghost predicate QuorumAt(data: Data, threshold: nat, t: int) {
    t in data && HasQuorum(Bodies(data[t]), threshold)
  }

  /** Bucket n is the first with a quorum, and winner its most common body. */
  ghost predicate FirstAt(buckets: seq<seq<RewardVote>>, threshold: nat, n: nat, winner: RewardVoteBody) {
    && n < |buckets| && HasQuorum(Bodies(buckets[n]), threshold)
    && Bodies(buckets[n]) != [] && winner == MostCommon(Bodies(buckets[n]))
    && forall k :: 0 <= k < n ==> !HasQuorum(Bodies(buckets[k]), threshold)
  }

  lemma {:induction false} FirstQuorumSpec(buckets: seq<seq<RewardVote>>, threshold: nat) returns (n: nat)
    requires forall k :: 0 <= k < |buckets| ==> buckets[k] != []
    ensures var found := FirstQuorum(buckets, threshold);
      if found == None then forall k :: 0 <= k < |buckets| ==> !HasQuorum(Bodies(buckets[k]), threshold)
      else FirstAt(buckets, threshold, n, found.value.1) && buckets[n] == found.value.0
  {
    hide HasQuorum, Bodies, Count, MostCommon, FirstAt, FirstQuorum;
    n := 0;
    FirstQuorumNext(buckets, threshold);
    if buckets != [] && !HasQuorum(Bodies(buckets[0]), threshold) {
      var m := FirstQuorumSpec(buckets[1..], threshold);
      n := m + 1;
      NoneInTail(buckets, threshold);
      if FirstQuorum(buckets, threshold).Some? {
        FirstInTail(buckets, threshold, m, FirstQuorum(buckets, threshold).value.1);
      }
    }
  }

  /** The first bucket is taken exactly if it has a quorum. */
  lemma FirstQuorumNext(buckets: seq<seq<RewardVote>>, threshold: nat)
    requires forall k :: 0 <= k < |buckets| ==> buckets[k] != []
    ensures buckets == [] ==> FirstQuorum(buckets, threshold) == None
    ensures buckets != [] && !HasQuorum(Bodies(buckets[0]), threshold) ==>
      FirstQuorum(buckets, threshold) == FirstQuorum(buckets[1..], threshold)
    ensures buckets != [] && HasQuorum(Bodies(buckets[0]), threshold) ==>
      var found := FirstQuorum(buckets, threshold);
      found.Some? && found.value.0 == buckets[0] && FirstAt(buckets, threshold, 0, found.value.1)
  {
    hide HasQuorum, Bodies, Count, MostCommon;
    if buckets != [] {
      BodiesLength(buckets[0]);
      QuorumIsMostCommon(Bodies(buckets[0]), threshold);
    }
  }

  lemma FirstInTail(buckets: seq<seq<RewardVote>>, threshold: nat, m: nat, winner: RewardVoteBody)
    requires buckets != [] && !HasQuorum(Bodies(buckets[0]), threshold) && FirstAt(buckets[1..], threshold, m, winner)
    ensures FirstAt(buckets, threshold, m + 1, winner) && buckets[m + 1] == buckets[1..][m]
  {
    hide HasQuorum, Bodies, MostCommon;
    forall k | 1 <= k < |buckets| ensures buckets[k] == buckets[1..][k - 1] { }
  }

  lemma NoneInTail(buckets: seq<seq<RewardVote>>, threshold: nat)
    requires buckets != [] && !HasQuorum(Bodies(buckets[0]), threshold)
    ensures (forall k :: 0 <= k < |buckets| - 1 ==> !HasQuorum(Bodies(buckets[1..][k]), threshold)) ==>
      forall k :: 0 <= k < |buckets| ==> !HasQuorum(Bodies(buckets[k]), threshold)
  {
    hide HasQuorum, Bodies;
    forall k | 1 <= k < |buckets| ensures buckets[k] == buckets[1..][k - 1] { }
  }

  /**
   * The winner is a most voted body at the smallest cached timestamp that has a quorum; there is
   * none exactly when no timestamp has one.
   */
  lemma WinnerSpec(data: Data, threshold: nat)
    requires ValidData(data)
    ensures Winner(data, threshold) == None <==> forall t :: !QuorumAt(data, threshold, t)
    ensures Winner(data, threshold).Some? ==>
      var (bucket, winner) := Winner(data, threshold).value;
      var t := winner.updateTimestamp;
      && QuorumAt(data, threshold, t) && data[t] == bucket
      && Count(Bodies(bucket), winner) >= threshold
      && (forall b :: Count(Bodies(bucket), b) <= Count(Bodies(bucket), winner))
      && (forall u :: QuorumAt(data, threshold, u) ==> t <= u)
  {
    hide HasQuorum, Lists, ValidData, Bodies, Count, MostCommon, Buckets, FirstQuorum;
    BucketsSpec(data);
    var buckets := Buckets(data);
    BucketsNonEmpty(data, buckets);
    var n := FirstQuorumSpec(buckets, threshold);
    if Winner(data, threshold) == None {
      forall t ensures !QuorumAt(data, threshold, t) {
        if t in data {
          var k := BucketOf(data, buckets, t);
        }
      }
    } else {
      var (bucket, winner) := Winner(data, threshold).value;
      WinnerAt(data, buckets, n, threshold);
      assert QuorumAt(data, threshold, winner.updateTimestamp);
      forall u | QuorumAt(data, threshold, u) ensures winner.updateTimestamp <= u {
        var k := BucketOf(data, buckets, u);
        InOrder(data, buckets, n, k);
      }
    }
  }

  lemma BucketsNonEmpty(data: Data, buckets: seq<seq<RewardVote>>)
    requires Lists(data, buckets)
    ensures forall k :: 0 <= k < |buckets| ==> buckets[k] != []
  {
  }

  lemma InOrder(data: Data, buckets: seq<seq<RewardVote>>, n: nat, k: nat)
    requires Lists(data, buckets) && n <= k < |buckets|
    ensures buckets[n] != [] && buckets[k] != [] && Stamp(buckets[n][0]) <= Stamp(buckets[k][0])
  {
  }

  /** The most voted body of a bucket carries the timestamp of the bucket. */
  lemma WinnerAt(data: Data, buckets: seq<seq<RewardVote>>, n: nat, threshold: nat)
    requires ValidData(data) && Lists(data, buckets) && n < |buckets| && HasQuorum(Bodies(buckets[n]), threshold)
    ensures Bodies(buckets[n]) != [] && buckets[n] != []
    ensures var winner := MostCommon(Bodies(buckets[n]));
      && winner.updateTimestamp == Stamp(buckets[n][0])
      && winner.updateTimestamp in data && data[winner.updateTimestamp] == buckets[n]
      && Count(Bodies(buckets[n]), winner) >= threshold
      && (forall b :: Count(Bodies(buckets[n]), b) <= Count(Bodies(buckets[n]), winner))
  {
    var bucket := buckets[n];
    BodiesLength(bucket);
    var winner := MostCommon(Bodies(bucket));
    MostCommonSpec(Bodies(bucket));
    QuorumIsMostCommon(Bodies(bucket), threshold);
    BodiesSpec(bucket, winner);
    hide Count, Bodies, MostCommon, HasQuorum;
    var v :| v in bucket && v.body == winner;
    var t := Stamp(bucket[0]);
    assert bucket[0] in data[t] && v in data[t];
  }

  // ---- one run of the service

  /** What is handed to submission: the winning body and the concatenated signatures of the chosen votes. */
  datatype Submission = Submission(winner: RewardVoteBody, signatures: seq<bv8>)

  /** What one run meets; submits is false when the submission raises. */
  datatype Round = Round(canUpdate: bool, votes: seq<RewardVote>, nonce: int, threshold: nat, submits: bool)

  function Join(votes: seq<RewardVote>): seq<bv8> {
    if votes == [] then [] else Join(votes[..|votes| - 1]) + votes[|votes| - 1].signature
  }

  /** The votes whose signatures are submitted. */
  function Signers(bucket: seq<RewardVote>, winner: RewardVoteBody, threshold: nat): seq<RewardVote> {
    Chosen(bucket, ByAddress(), ForBody(winner), threshold)
  }

  function Admitted(round: Round): seq<RewardVote> {
    Filter(round.votes, WithNonce(round.nonce))
  }

  /** The received votes with the current nonce, all of them and in the order received. */
  lemma AdmittedSpec(round: Round) returns (at: seq<nat>)
    ensures forall v :: v in Admitted(round) <==> v in round.votes && v.nonce == round.nonce
    ensures |at| == |Admitted(round)| && forall i, j :: 0 <= i < j < |at| ==> at[i] < at[j]
    ensures forall i :: 0 <= i < |at| ==>
      at[i] < |round.votes| && round.votes[at[i]].nonce == round.nonce && Admitted(round)[i] == round.votes[at[i]]
    ensures forall k :: 0 <= k < |round.votes| && round.votes[k].nonce == round.nonce ==> k in at
  {
    var p := WithNonce(round.nonce);
    FilterSpec(round.votes, p);
    at := FilterPositions(round.votes, p);
    assert forall v :: p(v) <==> v.nonce == round.nonce;
  }

  /** What a run submits over the cache it has just updated. */
  function Decide(data: Data, threshold: nat): Option<Submission>
    requires ValidData(data)
  {
    match Winner(data, threshold)
    case None => None
    case Some((bucket, winner)) => Some(Submission(winner, Join(Signers(bucket, winner, threshold))))
  }

  /** The loop over the sorted votes with its counter and break. */
  method CollectSignatures(bucket: seq<RewardVote>, winner: RewardVoteBody, threshold: nat) returns (signatures: seq<bv8>)
    ensures signatures == Join(Signers(bucket, winner, threshold))
  {
    var sorted := SortBy(bucket, ByAddress());
    ghost var all, p := Filter(sorted, ForBody(winner)), ForBody(winner);
    var signaturesCount := 0;
    signatures := [];
    var n := 0;
    assert all[..0] == [];
    while n < |sorted|
      invariant 0 <= n <= |sorted| && signaturesCount <= threshold && signaturesCount <= |all|
      invariant all[signaturesCount..] == Filter(sorted[n..], p)
      invariant signatures == Join(all[..signaturesCount])
    {
      var vote := sorted[n];
      if signaturesCount >= threshold {
        break;
      }
      assert sorted[n..][1..] == sorted[n + 1..] && sorted[n..][0] == vote;
      if vote.body == winner {
        assert all[signaturesCount..] == [vote] + Filter(sorted[n + 1..], p);
        assert all[signaturesCount] == all[signaturesCount..][0] == vote;
        assert all[..signaturesCount + 1][..signaturesCount] == all[..signaturesCount];
        assert all[signaturesCount + 1..] == all[signaturesCount..][1..];
        signatures := signatures + vote.signature;
        signaturesCount := signaturesCount + 1;
      }
      n := n + 1;
    }
    if signaturesCount < threshold {
      assert sorted[n..] == [];
      assert all[signaturesCount..] == [];
    }
    assert all[..signaturesCount] == Signers(bucket, winner, threshold);
  }

  method ProcessRewards(cache: RewardsCache, round: Round) returns (submission: Option<Submission>)
    requires ValidData(cache.data)
    modifies cache
    ensures var (data, out) := Step(old(cache.data), cache.cacheSize, round);
      cache.data == data && submission == out
  {
    if !round.canUpdate || round.votes == [] {
      return None;
    }
    var votes := Admitted(round);
    if votes == [] {
      return None;
    }
    UpdatedIsValid(cache.data, votes, cache.cacheSize);
    cache.Update(votes);
    BucketsSpec(cache.data);
    var found := FindEarliestWinner(Buckets(cache.data), round.threshold);
    if found == None {
      return None;
    }
    var (timestampVotes, winner) := found.value;
    var signatures := CollectSignatures(timestampVotes, winner, round.threshold);
    submission := Some(Submission(winner, signatures));
    if round.submits {
      cache.Clear();
    }
  }

  /** The cache and the submission after a run; without admitted votes nothing happens. */
  function Step(data: Data, k: nat, round: Round): (Data, Option<Submission>)
    requires ValidData(data)
  {
    if !round.canUpdate || Admitted(round) == [] then (data, None)
    else
      UpdatedIsValid(data, Admitted(round), k);
      var now := Updated(data, Admitted(round), k);
      var out := Decide(now, round.threshold);
      (if out.Some? && round.submits then map[] else now, out)
  }

  lemma {:induction false} AddVotesIsValid(data: Data, votes: seq<RewardVote>)
    requires ValidData(data)
    ensures ValidData(AddVotes(data, votes))
  {
    if votes != [] {
      AddVotesIsValid(data, votes[..|votes| - 1]);
    }
  }

  lemma UpdatedIsValid(data: Data, votes: seq<RewardVote>, k: nat)
    requires ValidData(data)
    ensures ValidData(Updated(data, votes, k))
  {
    AddVotesIsValid(data, votes);
  }

  // ---- what a submission contains

  /**
   * Exactly threshold votes, all for the winner, by ascending address of the signer, and none for the
   * winner that is left out has a lower address than one taken.
   */
  ghost predicate LowestSigners(signers: seq<RewardVote>, bucket: seq<RewardVote>, winner: RewardVoteBody, threshold: nat) {
    && |signers| == threshold
    && (forall v :: v in signers ==> v in bucket && v.body == winner)
    && multiset(signers) <= multiset(bucket)
    && (forall i, j :: 0 <= i < j < |signers| ==> ToInt(signers[i].oracleAddress) <= ToInt(signers[j].oracleAddress))
    && (forall v, w :: v in signers && w in bucket && w.body == winner && w !in signers ==>
          ToInt(v.oracleAddress) <= ToInt(w.oracleAddress))
  }

  /** What choosing by address among the votes for one body gives, for any number of them that there are. */
  lemma SignersChosen(bucket: seq<RewardVote>, winner: RewardVoteBody, threshold: nat)
    requires threshold <= Count(Bodies(bucket), winner)
    ensures var signers, le, p := Signers(bucket, winner, threshold), ByAddress(), ForBody(winner);
      && |signers| == threshold
      && (forall x :: x in signers ==> x in bucket && p(x))
      && Sorted(signers, le)
      && multiset(signers) <= multiset(bucket)
      && (forall x, y :: x in signers && y in bucket && p(y) && y !in signers ==> le(x, y))
  {
    hide Chosen, ToInt, Count, Bodies, Filter, ForBody;
    BodiesSpec(bucket, winner);
    ByAddressIsPreorder();
    ChosenSpec(bucket, ByAddress(), ForBody(winner), threshold);
  }

  lemma SignersSpec(bucket: seq<RewardVote>, winner: RewardVoteBody, threshold: nat)
    requires threshold <= Count(Bodies(bucket), winner)
    ensures LowestSigners(Signers(bucket, winner, threshold), bucket, winner, threshold)
  {
    hide Signers, ToInt, Count, Bodies;
    SignersChosen(bucket, winner, threshold);
    var signers := Signers(bucket, winner, threshold);
    forall i, j | 0 <= i < j < |signers| ensures ToInt(signers[i].oracleAddress) <= ToInt(signers[j].oracleAddress) {
      assert ByAddress()(signers[i], signers[j]);
    }
    forall v | v in signers ensures v.body == winner {
      assert ForBody(winner)(v);
    }
    forall v, w | v in signers && w in bucket && w.body == winner && w !in signers
      ensures ToInt(v.oracleAddress) <= ToInt(w.oracleAddress)
    {
      assert ForBody(winner)(w);
      assert ByAddress()(v, w);
    }
  }

  /** What is submitted: the winner with the signatures of the lowest signers for it. */
  lemma SubmissionSpec(data: Data, threshold: nat)
    requires ValidData(data) && Winner(data, threshold).Some?
    ensures var (bucket, winner) := Winner(data, threshold).value;
      var signers := Signers(bucket, winner, threshold);
      Decide(data, threshold) == Some(Submission(winner, Join(signers))) && LowestSigners(signers, bucket, winner, threshold)
  {
    WinnerSpec(data, threshold);
    var (bucket, winner) := Winner(data, threshold).value;
    hide LowestSigners, Winner;
    SignersSpec(bucket, winner, threshold);
  }

  /** The number of bytes in the first k signatures. */
  ghost function Offset(votes: seq<RewardVote>, k: nat): nat
    requires k <= |votes|
  {
    if k == 0 then 0 else Offset(votes, k - 1) + |votes[k - 1].signature|
  }

  lemma {:induction false} OffsetPrefix(votes: seq<RewardVote>, n: nat, k: nat)
    requires k <= n <= |votes|
    ensures Offset(votes[..n], k) == Offset(votes, k) <= Offset(votes, n)
    decreases n, k
  {
    if k > 0 {
      OffsetPrefix(votes, n, k - 1);
    }
    if k < n {
      OffsetPrefix(votes, n - 1, k);
    }
  }

  /** In the bytes, the signature of vote k starts after the k signatures before it. */
  ghost predicate StandsAt(bytes: seq<bv8>, votes: seq<RewardVote>, k: nat)
    requires k < |votes|
  {
    Offset(votes, k + 1) <= |bytes| && bytes[Offset(votes, k)..Offset(votes, k + 1)] == votes[k].signature
  }

  /** The joined bytes are the signatures and nothing else. */
  lemma {:induction false} JoinSpec(votes: seq<RewardVote>)
    ensures |Join(votes)| == Offset(votes, |votes|)
    ensures forall k :: 0 <= k < |votes| ==> StandsAt(Join(votes), votes, k)
  {
    if votes != [] {
      hide Join, Offset, StandsAt;
      var n := |votes| - 1;
      JoinSpec(votes[..n]);
      JoinNext(votes);
      OffsetPrefix(votes, n, n);
      forall k | 0 <= k < n ensures StandsAt(Join(votes), votes, k) {
        StandsInLonger(Join(votes[..n]), votes[n].signature, votes, n, k);
      }
    }
  }

  lemma StandsInLonger(bytes: seq<bv8>, more: seq<bv8>, votes: seq<RewardVote>, n: nat, k: nat)
    requires k < n <= |votes| && StandsAt(bytes, votes[..n], k)
    ensures StandsAt(bytes + more, votes, k)
  {
    hide Offset;
    OffsetPrefix(votes, n, k);
    OffsetPrefix(votes, n, k + 1);
    OffsetPrefix(votes, k + 1, k);
    assert (bytes + more)[..|bytes|] == bytes;
  }

  lemma JoinNext(votes: seq<RewardVote>)
    requires votes != []
    ensures var n := |votes| - 1;
      |Join(votes[..n])| == Offset(votes, n) ==> |Join(votes)| == Offset(votes, n + 1) && StandsAt(Join(votes), votes, n)
    ensures Join(votes) == Join(votes[..|votes| - 1]) + votes[|votes| - 1].signature
  {
  }

  lemma {:induction false} OffsetOfEqual(votes: seq<RewardVote>, k: nat, n: nat)
    requires k <= |votes| && forall v :: v in votes ==> |v.signature| == n
    ensures Offset(votes, k) == n * k
  {
    if k > 0 {
      OffsetOfEqual(votes, k - 1, n);
    }
  }

  /** No oracle has two cached votes for one body. */
  ghost predicate OneVoteEach(bucket: seq<RewardVote>, winner: RewardVoteBody) {
    forall i, j :: 0 <= i < j < |bucket| && bucket[i].body == bucket[j].body == winner ==>
      ToInt(bucket[i].oracleAddress) != ToInt(bucket[j].oracleAddress)
  }

  ghost predicate AscendStrictly(signers: seq<RewardVote>) {
    forall i, j :: 0 <= i < j < |signers| ==> ToInt(signers[i].oracleAddress) < ToInt(signers[j].oracleAddress)
  }

  ghost predicate NoVoteTwice(bucket: seq<RewardVote>) {
    forall i, j :: 0 <= i < j < |bucket| ==> bucket[i] != bucket[j]
  }

  /**
   * The signers' addresses ascend strictly, for every threshold that the votes for the body meet, if
   * and only if no oracle has two cached votes for it: only then is every quorum one of distinct oracles.
   */
  lemma DistinctOracles(data: Data, t: int, winner: RewardVoteBody)
    requires ValidData(data) && t in data
    ensures OneVoteEach(data[t], winner)
      <==> forall threshold: nat :: threshold <= Count(Bodies(data[t]), winner) ==> AscendStrictly(Signers(data[t], winner, threshold))
  {
    var bucket := data[t];
    assert NoVoteTwice(bucket);
    hide ValidData, NoVoteTwice, OneVoteEach, AscendStrictly, LowestSigners, Signers, Count;
    if OneVoteEach(bucket, winner) {
      forall threshold: nat | threshold <= Count(Bodies(bucket), winner) ensures AscendStrictly(Signers(bucket, winner, threshold)) {
        SignersSpec(bucket, winner, threshold);
        OneVoteAscends(Signers(bucket, winner, threshold), bucket, winner, threshold);
      }
    }
    if forall threshold: nat :: threshold <= Count(Bodies(bucket), winner) ==> AscendStrictly(Signers(bucket, winner, threshold)) {
      assert AscendStrictly(Signers(bucket, winner, Count(Bodies(bucket), winner)));
      QuorumOfAll(bucket, winner);
    }
  }

  lemma OneVoteAscends(signers: seq<RewardVote>, bucket: seq<RewardVote>, winner: RewardVoteBody, threshold: nat)
    requires LowestSigners(signers, bucket, winner, threshold) && OneVoteEach(bucket, winner) && NoVoteTwice(bucket)
    ensures AscendStrictly(signers)
  {
    hide ToInt;
    forall i, j | 0 <= i < j < |signers| ensures ToInt(signers[i].oracleAddress) < ToInt(signers[j].oracleAddress) {
      var v, w := signers[i], signers[j];
      assert v in signers && w in signers;
      TwiceInMultiset(signers, bucket, i, j);
      var a :| 0 <= a < |bucket| && bucket[a] == v;
      var b :| 0 <= b < |bucket| && bucket[b] == w;
    }
  }

  /** With a threshold of all votes for a body, each of them signs. */
  lemma AllSign(bucket: seq<RewardVote>, winner: RewardVoteBody, v: RewardVote)
    requires v in bucket && v.body == winner
    ensures v in Signers(bucket, winner, Count(Bodies(bucket), winner))
  {
    hide ToInt, Count, Bodies, Filter, SortBy;
    BodiesSpec(bucket, winner);
    ByAddressIsPreorder();
    SortSpec(bucket, ByAddress());
    FilterSort(bucket, ByAddress(), ForBody(winner));
    FilterSpec(SortBy(bucket, ByAddress()), ForBody(winner));
    var all := Filter(SortBy(bucket, ByAddress()), ForBody(winner));
    assert all[..|all|] == all;
    assert ForBody(winner)(v);
  }

  /** So two votes of one oracle for a body sign side by side when the threshold asks for all. */
  lemma QuorumOfAll(bucket: seq<RewardVote>, winner: RewardVoteBody)
    requires NoVoteTwice(bucket) && AscendStrictly(Signers(bucket, winner, Count(Bodies(bucket), winner)))
    ensures OneVoteEach(bucket, winner)
  {
    hide ToInt, Count, Bodies, Signers;
    var signers := Signers(bucket, winner, Count(Bodies(bucket), winner));
    forall i, j | 0 <= i < j < |bucket| && bucket[i].body == bucket[j].body == winner
      ensures ToInt(bucket[i].oracleAddress) != ToInt(bucket[j].oracleAddress)
    {
      AllSign(bucket, winner, bucket[i]);
      AllSign(bucket, winner, bucket[j]);
      var a :| 0 <= a < |signers| && signers[a] == bucket[i];
      var b :| 0 <= b < |signers| && signers[b] == bucket[j];
    }
  }

  /** Two votes of one oracle for one body are the same vote. */
  ghost predicate OneVotePerBody(log: seq<RewardVote>, stamps: set<int>) {
    forall v, w ::
      v in log && w in log && v.body == w.body && Stamp(v) in stamps && ToInt(v.oracleAddress) == ToInt(w.oracleAddress) ==> v == w
  }

  /** What the log must be like: each oracle sends one vote only for each body at the timestamps that are kept. */
  lemma OneVoteEachInLog(log: seq<RewardVote>, k: nat)
    ensures (forall t, b :: t in View(log, k) ==> OneVoteEach(View(log, k)[t], b)) <==> OneVotePerBody(log, View(log, k).Keys)
  {
    hide ToInt, OneVoteEach, OneVotePerBody, Dedup, VotesAt, Newest;
    var data := View(log, k);
    if forall t, b :: t in data ==> OneVoteEach(data[t], b) {
      forall v, w | v in log && w in log && v.body == w.body && Stamp(v) in data && ToInt(v.oracleAddress) == ToInt(w.oracleAddress)
        ensures v == w
      {
        InBucket(log, k, v);
        InBucket(log, k, w);
        assert OneVoteEach(data[Stamp(v)], v.body);
        SameOracle(data[Stamp(v)], v, w);
      }
      OneVotePerBodyIntro(log, data.Keys);
    }
    if OneVotePerBody(log, data.Keys) {
      forall t, b | t in data ensures OneVoteEach(data[t], b) {
        DedupSpec(VotesAt(log, t));
        VotesAtSpec(log, t);
        OneVoteEachIntro(log, data[t], data.Keys, t, b);
      }
    }
  }

  lemma InBucket(log: seq<RewardVote>, k: nat, v: RewardVote)
    requires v in log && Stamp(v) in View(log, k)
    ensures v in View(log, k)[Stamp(v)]
  {
    VotesAtSpec(log, Stamp(v));
    DedupSpec(VotesAt(log, Stamp(v)));
  }

  lemma SameOracle(bucket: seq<RewardVote>, v: RewardVote, w: RewardVote)
    requires OneVoteEach(bucket, v.body) && v in bucket && w in bucket && v.body == w.body
    requires ToInt(v.oracleAddress) == ToInt(w.oracleAddress)
    ensures v == w
  {
    hide ToInt;
    var a :| 0 <= a < |bucket| && bucket[a] == v;
    var b :| 0 <= b < |bucket| && bucket[b] == w;
  }

  lemma OneVotePerBodyIntro(log: seq<RewardVote>, stamps: set<int>)
    requires forall v, w ::
      v in log && w in log && v.body == w.body && Stamp(v) in stamps && ToInt(v.oracleAddress) == ToInt(w.oracleAddress) ==> v == w
    ensures OneVotePerBody(log, stamps)
  {
  }

  lemma OneVoteEachIntro(log: seq<RewardVote>, bucket: seq<RewardVote>, stamps: set<int>, t: int, b: RewardVoteBody)
    requires OneVotePerBody(log, stamps) && t in stamps && NoVoteTwice(bucket)
    requires forall v :: v in bucket ==> v in log && Stamp(v) == t
    ensures OneVoteEach(bucket, b)
  {
    hide ToInt;
    forall i, j | 0 <= i < j < |bucket| && bucket[i].body == bucket[j].body == b
      ensures ToInt(bucket[i].oracleAddress) != ToInt(bucket[j].oracleAddress)
    {
      assert bucket[i] in bucket && bucket[j] in bucket;
    }
  }

  /** A sequence without repetition has no repetition in a sub-multiset of it. */
  lemma TwiceInMultiset(s: seq<RewardVote>, from: seq<RewardVote>, i: nat, j: nat)
    requires i < j < |s| && multiset(s) <= multiset(from)
    requires forall a, b :: 0 <= a < b < |from| ==> from[a] != from[b]
    ensures s[i] != s[j]
  {
    var v := s[i];
    assert s == s[..j] + [s[j]] + s[j + 1..];
    assert s[..j][i] == v;
    CountOnce(from, v);
    assert multiset(s)[v] == multiset(s[..j])[v] + multiset([s[j]])[v] + multiset(s[j + 1..])[v];
    assert multiset(s)[v] <= multiset(from)[v] <= 1;
  }

  lemma {:induction false} CountOnce(from: seq<RewardVote>, v: RewardVote)
    requires forall a, b :: 0 <= a < b < |from| ==> from[a] != from[b]
    ensures multiset(from)[v] <= 1
  {
    if from != [] {
      assert from == [from[0]] + from[1..];
      CountOnce(from[1..], v);
      if v == from[0] {
        assert v !in from[1..];
      }
    }
  }

  // ---- whole runs: the bounded cache against the unbounded log

  /** The keeper over a sequence of runs: its cache at the end, and what each run submitted. */
  function RunCache(rounds: seq<Round>, k: nat): (r: (Data, seq<Option<Submission>>))
    ensures ValidData(r.0) && |r.1| == |rounds|
  {
    if rounds == [] then (map[], [])
    else
      var (data, outs) := RunCache(rounds[..|rounds| - 1], k);
      var round := rounds[|rounds| - 1];
      StepIsValid(data, k, round);
      var (data', out) := Step(data, k, round);
      (data', outs + [out])
  }

  lemma StepIsValid(data: Data, k: nat, round: Round)
    requires ValidData(data)
    ensures ValidData(Step(data, k, round).0)
  {
    UpdatedIsValid(data, Admitted(round), k);
  }

  /** The same over an unbounded log of the admitted votes since the last submission, of which only the k newest timestamps are looked at. */
  function LogStep(log: seq<RewardVote>, k: nat, round: Round): (seq<RewardVote>, Option<Submission>) {
    if !round.canUpdate || Admitted(round) == [] then (log, None)
    else
      var now := log + Admitted(round);
      ViewIsValid(now, k);
      var out := Decide(View(now, k), round.threshold);
      (if out.Some? && round.submits then [] else now, out)
  }

  function RunLog(rounds: seq<Round>, k: nat): (seq<RewardVote>, seq<Option<Submission>>) {
    if rounds == [] then ([], [])
    else
      var (log, outs) := RunLog(rounds[..|rounds| - 1], k);
      var (log', out) := LogStep(log, k, rounds[|rounds| - 1]);
      (log', outs + [out])
  }

  /** Every run submits what it would over the unbounded log, and its cache shows that log. */
  lemma {:induction false} KeeperRefinesLog(rounds: seq<Round>, k: nat)
    ensures RunCache(rounds, k).0 == View(RunLog(rounds, k).0, k)
    ensures RunCache(rounds, k).1 == RunLog(rounds, k).1
  {
    EmptyView(k);
    if rounds != [] {
      var init, round := rounds[..|rounds| - 1], rounds[|rounds| - 1];
      KeeperRefinesLog(init, k);
      UpdateRefinesLog(RunLog(init, k).0, Admitted(round), k);
    }
  }

  lemma EmptyView(k: nat)
    ensures View([], k) == map[]
  {
    assert Stamps([]) == {};
    NewestSpec({}, k);
  }
}
