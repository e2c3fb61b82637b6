/** Which nonces the submitted votes carry (src/rewards/service.py). */
module RewardNonces {
  import opened Wrappers
  import opened Sorting
  import opened Quorum
  import opened RewardsCache
  import opened Rewards

  ghost predicate AllNonce(votes: seq<RewardVote>, nonce: int) {
    forall v :: v in votes ==> v.nonce == nonce
  }

  lemma AdmittedNonce(round: Round)
    ensures AllNonce(Admitted(round), round.nonce)
  {
    var at := AdmittedSpec(round);
  }

  /** While the nonce stays the same after the log was last empty, all votes logged carry it. */
  lemma {:induction false} LogNonces(before: seq<Round>, after: seq<Round>, k: nat, nonce: int)
    requires RunLog(before, k).0 == [] && forall i :: 0 <= i < |after| ==> after[i].nonce == nonce
    ensures AllNonce(RunLog(before + after, k).0, nonce)
    decreases |after|
  {
    hide Decide, View, Admitted;
    if after == [] {
      assert before + after == before;
    } else {
      var init, round := after[..|after| - 1], after[|after| - 1];
      LogNonces(before, init, k, nonce);
      AdmittedNonce(round);
      assert (before + after)[..|before| + |init|] == before + init;
    }
  }

  /** Then a run with that nonce submits only votes that carry it. */
  lemma CurrentNonceSubmitted(before: seq<Round>, after: seq<Round>, round: Round, k: nat)
    requires RunLog(before, k).0 == [] && forall i :: 0 <= i < |after| ==> after[i].nonce == round.nonce
    ensures var data := View(RunLog(before + after, k).0 + Admitted(round), k);
      ValidData(data) && (Winner(data, round.threshold).Some? ==>
        var (bucket, winner) := Winner(data, round.threshold).value;
        AllNonce(Signers(bucket, winner, round.threshold), round.nonce))
  {
    var log := RunLog(before + after, k).0 + Admitted(round);
    LogNonces(before, after, k, round.nonce);
    AdmittedNonce(round);
    assert AllNonce(log, round.nonce);
    var data := View(log, k);
    ViewIsValid(log, k);
    if Winner(data, round.threshold).Some? {
      var (bucket, winner) := Winner(data, round.threshold).value;
      WinnerSpec(data, round.threshold);
      SubmissionSpec(data, round.threshold);
      var t := winner.updateTimestamp;
      assert data[t] == Dedup(VotesAt(log, t));
      DedupSpec(VotesAt(log, t));
      VotesAtSpec(log, t);
    }
  }

  lemma {:induction false} AddVotesMembers(data: Data, votes: seq<RewardVote>, t: int)
    ensures forall v :: v in Bucket(AddVotes(data, votes), t) <==> v in Bucket(data, t) || (v in votes && Stamp(v) == t)
    decreases |votes|
  {
    if votes != [] {
      var init, v := votes[..|votes| - 1], votes[|votes| - 1];
      AddVotesMembers(data, init, t);
      assert votes == init + [v];
      BucketNext(data, init, v, t);
    }
  }

  // ---- a run submits only the current nonce exactly when the cache holds nothing else

  /** The votes whose signatures a run submits, none if it submits nothing. */
  function RunSigners(data: Data, k: nat, round: Round): seq<RewardVote>
    requires ValidData(data)
  {
    if !round.canUpdate || Admitted(round) == [] then []
    else
      UpdatedIsValid(data, Admitted(round), k);
      match Winner(Updated(data, Admitted(round), k), round.threshold)
      case None => []
      case Some((bucket, winner)) => Signers(bucket, winner, round.threshold)
  }

  lemma RunSignersSubmitted(data: Data, k: nat, round: Round)
    requires ValidData(data)
    ensures var out := Step(data, k, round).1;
      if out == None then RunSigners(data, k, round) == [] else out.value.signatures == Join(RunSigners(data, k, round))
  {
    hide Winner, Updated, Signers, Admitted;
    UpdatedIsValid(data, Admitted(round), k);
  }

  /** Signers come from the cache before the run or from the votes admitted by it. */
  lemma SignersFrom(data: Data, k: nat, round: Round, v: RewardVote)
    requires ValidData(data) && v in RunSigners(data, k, round)
    ensures (Stamp(v) in data && v in data[Stamp(v)]) || v.nonce == round.nonce
  {
    hide Winner, Signers, Admitted, LowestSigners, AddVotes;
    var votes := Admitted(round);
    UpdatedIsValid(data, votes, k);
    var now := Updated(data, votes, k);
    var (bucket, winner) := Winner(now, round.threshold).value;
    WinnerSpec(now, round.threshold);
    SubmissionSpec(now, round.threshold);
    SignersCarry(bucket, winner, round.threshold);
    AdmittedNonce(round);
    AddVotesMembers(data, votes, winner.updateTimestamp);
  }

  lemma SignersCarry(bucket: seq<RewardVote>, winner: RewardVoteBody, threshold: nat)
    requires LowestSigners(Signers(bucket, winner, threshold), bucket, winner, threshold)
    ensures forall v :: v in Signers(bucket, winner, threshold) ==> v in bucket && v.body == winner
  {
  }

  /** n votes for a body under a nonce, told apart by the length of their signatures. */
  function Fresh(nonce: int, body: RewardVoteBody, length: nat, n: nat): (votes: seq<RewardVote>)
    ensures |votes| == n
    ensures forall v :: v in votes ==> v.nonce == nonce && v.body == body && length <= |v.signature| < length + n
  {
    if n == 0 then [] else Fresh(nonce, body, length, n - 1) + [RewardVote("", nonce, seq(length + n - 1, _ => 0), body)]
  }

  lemma {:induction false} AdmitsAll(votes: seq<RewardVote>, nonce: int)
    requires AllNonce(votes, nonce)
    ensures Filter(votes, WithNonce(nonce)) == votes
  {
    if votes != [] {
      assert votes[0] in votes && votes == [votes[0]] + votes[1..];
      AdmitsAll(votes[1..], nonce);
      assert WithNonce(nonce)(votes[0]);
    }
  }

  /** Fresh votes are all appended to the bucket of their body. */
  lemma {:induction false} AddFresh(data: Data, t: int, nonce: int, body: RewardVoteBody, length: nat, n: nat)
    requires t in data && body.updateTimestamp == t && forall v :: v in data[t] ==> |v.signature| < length
    ensures AddVotes(data, Fresh(nonce, body, length, n)) == data[t := data[t] + Fresh(nonce, body, length, n)]
  {
    if n == 0 {
      assert data[t] + [] == data[t];
    } else {
      hide AddVotes, Fresh;
      AddFresh(data, t, nonce, body, length, n - 1);
      var init := Fresh(nonce, body, length, n - 1);
      var v := FreshNext(nonce, body, length, n);
      assert v !in init && v !in data[t];
      AddNext(data, t, init, v);
    }
  }

  lemma FreshNext(nonce: int, body: RewardVoteBody, length: nat, n: nat) returns (v: RewardVote)
    requires n > 0
    ensures Fresh(nonce, body, length, n) == Fresh(nonce, body, length, n - 1) + [v]
    ensures |v.signature| == length + n - 1 && v.body == body
  {
    v := RewardVote("", nonce, seq(length + n - 1, _ => 0), body);
  }

  lemma AddNext(data: Data, t: int, votes: seq<RewardVote>, v: RewardVote)
    requires t in data && AddVotes(data, votes) == data[t := data[t] + votes]
    requires Stamp(v) == t && v !in votes && v !in data[t]
    ensures AddVotes(data, votes + [v]) == data[t := data[t] + (votes + [v])]
  {
    assert (votes + [v])[..|votes|] == votes;
    assert data[t] + votes + [v] == data[t] + (votes + [v]);
  }

  lemma CountSnoc(s: seq<RewardVote>, v: RewardVote, b: RewardVoteBody)
    ensures Count(Bodies(s + [v]), b) == Count(Bodies(s), b) + if v.body == b then 1 else 0
  {
    if s == [] {
      assert s + [v] == [v] && [v][1..] == [] && [v.body][1..] == [] && Bodies([v]) == [v.body];
    } else {
      CountSnoc(s[1..], v, b);
      assert (s + [v])[1..] == s[1..] + [v];
      assert Bodies(s + [v])[1..] == Bodies(s[1..] + [v]) && Bodies(s)[1..] == Bodies(s[1..]);
    }
  }

  lemma {:induction false} CountFresh(bucket: seq<RewardVote>, nonce: int, body: RewardVoteBody, length: nat, n: nat, b: RewardVoteBody)
    ensures Count(Bodies(bucket + Fresh(nonce, body, length, n)), b) == Count(Bodies(bucket), b) + if b == body then n else 0
  {
    hide Count, Bodies;
    if n == 0 {
      assert bucket + [] == bucket;
    } else {
      CountFresh(bucket, nonce, body, length, n - 1, b);
      var init := Fresh(nonce, body, length, n - 1);
      var v := FreshNext(nonce, body, length, n);
      assert bucket + (init + [v]) == (bucket + init) + [v];
      CountSnoc(bucket + init, v, b);
    }
  }

  lemma {:induction false} CountBound(votes: seq<RewardVote>, b: RewardVoteBody)
    ensures Count(Bodies(votes), b) <= |votes|
  {
    if votes != [] {
      CountBound(votes[1..], b);
      assert Bodies(votes)[1..] == Bodies(votes[1..]);
    }
  }

  lemma {:induction false} BucketBound(data: Data) returns (n: nat)
    ensures forall t :: t in data ==> |data[t]| < n
    decreases |data.Keys|
  {
    n := 0;
    if data != map[] {
      var t := Oldest(data.Keys);
      OneLess(data, t);
      var m := BucketBound(data - {t});
      n := m + |data[t]| + 1;
      forall u | u in data ensures |data[u]| < n {
        assert u != t ==> u in data - {t};
      }
    }
  }

  lemma {:induction false} SignatureBound(votes: seq<RewardVote>) returns (n: nat)
    ensures forall v :: v in votes ==> |v.signature| < n
  {
    n := 0;
    if votes != [] {
      var m := SignatureBound(votes[1..]);
      n := m + |votes[0].signature| + 1;
    }
  }

  /** Enough fresh votes for a body make it the winner when the threshold is all the votes it then has. */
  lemma FreshWins(data: Data, t: int, body: RewardVoteBody, votes: seq<RewardVote>, now: Data, threshold: nat)
    requires ValidData(data) && ValidData(now) && t in data && body.updateTimestamp == t
    requires now == data[t := data[t] + votes]
    requires forall u, b :: u in now && (u != t || b != body) ==> Count(Bodies(now[u]), b) < threshold
    requires threshold == Count(Bodies(now[t]), body) > 0
    ensures Winner(now, threshold) == Some((now[t], body))
  {
    hide ValidData, Winner, Bodies, Count;
    WinnerSpec(now, threshold);
    CountPositive(Bodies(now[t]), body);
    assert QuorumAt(now, threshold, t);
    var (bucket, winner) := Winner(now, threshold).value;
    assert Count(Bodies(now[winner.updateTimestamp]), winner) >= threshold;
  }

  /** A cached vote for a body signs in the run that brings enough fresh votes for the same body. */
  lemma StaleSigns(data: Data, k: nat, nonce: int, v: RewardVote) returns (round: Round)
    requires ValidData(data) && |data| <= k && Stamp(v) in data && v in data[Stamp(v)]
    ensures round.nonce == nonce && v in RunSigners(data, k, round)
  {
    hide ValidData, Winner, Bodies, Count, Newest, AddVotes, Signers;
    var t, body := Stamp(v), v.body;
    var n := BucketBound(data);
    var length := SignatureBound(data[t]);
    var votes := Fresh(nonce, body, length, n);
    var now := Updated(data, votes, k);
    var threshold := Count(Bodies(data[t] + votes), body);
    round := Round(true, votes, nonce, threshold, true);
    AdmitsAll(votes, nonce);
    UpdatedIsValid(data, votes, k);
    AddFresh(data, t, nonce, body, length, n);
    KeysKept(data, t, data[t] + votes, k);
    assert now == data[t := data[t] + votes];
    forall u, b | u in now && (u != t || b != body) ensures Count(Bodies(now[u]), b) < threshold {
      CountFresh(data[t], nonce, body, length, n, b);
      CountFresh(data[t], nonce, body, length, n, body);
      CountBound(data[u], b);
    }
    CountFresh(data[t], nonce, body, length, n, body);
    FreshWins(data, t, body, votes, now, threshold);
    AllSign(now[t], body, v);
  }

  lemma KeysKept(data: Data, t: int, bucket: seq<RewardVote>, k: nat)
    requires t in data && |data| <= k
    ensures Restrict(data[t := bucket], Newest(data[t := bucket].Keys, k)) == data[t := bucket]
  {
    assert data[t := bucket].Keys == data.Keys && |data.Keys| == |data|;
  }

  /**
   * From a given cache, every run under nonce n submits only votes that carry n if and only if every
   * cached vote does: the runs never filter what was cached before.
   */
  lemma CurrentNonceExact(data: Data, k: nat, nonce: int)
    requires ValidData(data) && |data| <= k
    ensures (forall round: Round :: round.nonce == nonce ==> AllNonce(RunSigners(data, k, round), nonce))
      <==> forall t :: t in data ==> AllNonce(data[t], nonce)
  {
    hide ValidData, RunSigners;
    if forall t :: t in data ==> AllNonce(data[t], nonce) {
      forall round: Round, v | round.nonce == nonce && v in RunSigners(data, k, round) ensures v.nonce == nonce {
        SignersFrom(data, k, round, v);
      }
    }
    if forall round: Round :: round.nonce == nonce ==> AllNonce(RunSigners(data, k, round), nonce) {
      forall t, v | t in data && v in data[t] ensures v.nonce == nonce {
        StampInBucket(data, t, v);
        var round := StaleSigns(data, k, nonce, v);
        assert AllNonce(RunSigners(data, k, round), nonce);
      }
    }
  }

  lemma StampInBucket(data: Data, t: int, v: RewardVote)
    requires ValidData(data) && t in data && v in data[t]
    ensures Stamp(v) == t
  {
  }

  /** Every cache that a keeper can have is of this kind. */
  lemma CacheBounded(rounds: seq<Round>, k: nat)
    ensures var data := RunCache(rounds, k).0;
      ValidData(data) && |data| <= k
  {
    KeeperRefinesLog(rounds, k);
    var log := RunLog(rounds, k).0;
    NewestSpec(Stamps(log), k);
    assert View(log, k).Keys == Newest(Stamps(log), k);
    assert |View(log, k)| == |View(log, k).Keys|;
  }
}
