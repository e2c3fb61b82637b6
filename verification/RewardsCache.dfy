/** The bounded cache of reward votes and the unbounded vote log it stands for (RewardsCache, src/rewards/service.py). */
module RewardsCache {

  datatype RewardVoteBody = RewardVoteBody(updateTimestamp: int, root: string, ipfsHash: string, avgRewardPerSecond: int)

  datatype RewardVote = RewardVote(oracleAddress: string, nonce: int, signature: seq<bv8>, body: RewardVoteBody)

  /** Votes by update timestamp. */
  type Data = map<int, seq<RewardVote>>

  // ---- the cache

  function Bucket(data: Data, t: int): seq<RewardVote> {
    if t in data then data[t] else []
  }

  function Stamp(v: RewardVote): int {
    v.body.updateTimestamp
  }

  function AddNew(bucket: seq<RewardVote>, v: RewardVote): seq<RewardVote> {
    if v in bucket then bucket else bucket + [v]
  }

  function AddVotes(data: Data, votes: seq<RewardVote>): Data {
    if votes == [] then data
    else
      var before, v := AddVotes(data, votes[..|votes| - 1]), votes[|votes| - 1];
      before[Stamp(v) := AddNew(Bucket(before, Stamp(v)), v)]
  }

  function Oldest(stamps: set<int>): (t: int)
    requires stamps != {}
    ensures t in stamps && forall u :: u in stamps ==> t <= u
  {
    OldestExists(stamps);
    var t :| t in stamps && forall u :: u in stamps ==> t <= u;
    t
  }

  lemma NotSubset(a: set<int>, b: set<int>)
    ensures a <= b || exists x :: x in a && x !in b
  {
    if forall x :: x in a ==> x in b {
      assert a <= b;
    }
  }

  lemma {:induction false} OldestExists(stamps: set<int>)
    requires stamps != {}
    ensures exists t :: t in stamps && forall u :: u in stamps ==> t <= u
  {
    NotSubset(stamps, {});
    var t :| t in stamps;
    var rest := stamps - {t};
    assert stamps == rest + {t};
    if rest != {} {
      OldestExists(rest);
      var u :| u in rest && forall w :: w in rest ==> u <= w;
      var least := if t <= u then t else u;
      assert least in stamps && forall w :: w in stamps ==> least <= w;
    } else {
      assert forall w :: w in stamps ==> t <= w;
    }
  }

  /** The newest k timestamps of a set. */
  function Newest(stamps: set<int>, k: nat): set<int> {
    if |stamps| <= k then stamps
    else
      Newest(stamps - {Oldest(stamps)}, k)
  }

  /** Every reachable bucket is non-empty, holds votes of its own timestamp, and no vote twice. */
  ghost predicate ValidData(data: Data) {
    forall t :: t in data ==>
      && data[t] != []
      && (forall v :: v in data[t] ==> Stamp(v) == t)
      && (forall i, j :: 0 <= i < j < |data[t]| ==> data[t][i] != data[t][j])
  }

  function Restrict(data: Data, stamps: set<int>): Data {
    map t | t in data && t in stamps :: data[t]
  }

  /** The cache after one update: the votes added, then only the k newest timestamps kept. */
  function Updated(data: Data, votes: seq<RewardVote>, k: nat): Data {
    var added := AddVotes(data, votes);
    Restrict(added, Newest(added.Keys, k))
  }

  class RewardsCache {
    var data: Data
    const cacheSize: nat

    constructor (cacheSize: nat)
      ensures data == map[] && this.cacheSize == cacheSize
    {
      data, this.cacheSize := map[], cacheSize;
    }

    method Update(votes: seq<RewardVote>)
      modifies this
      ensures data == Updated(old(data), votes, cacheSize)
    {
      for k := 0 to |votes|
        invariant data == AddVotes(old(data), votes[..k])
      {
        assert votes[..k + 1][..k] == votes[..k];
        var vote := votes[k];
        var updateTimestamp := vote.body.updateTimestamp;
        if updateTimestamp !in data || data[updateTimestamp] == [] {
          data := data[updateTimestamp := []];
        }
        if vote !in data[updateTimestamp] {
          data := data[updateTimestamp := data[updateTimestamp] + [vote]];
        }
      }
      assert votes[..|votes|] == votes;
      Evict();
    }

    /** Deletes the oldest timestamps until the cache is within its size. */
    method Evict()
      modifies this
      ensures data == Restrict(old(data), Newest(old(data).Keys, cacheSize))
    {
      while |data| > cacheSize
        invariant Newest(data.Keys, cacheSize) == Newest(old(data).Keys, cacheSize)
        invariant data.Keys <= old(data).Keys && data == Restrict(old(data), data.Keys)
        decreases |data.Keys|
      {
        assert |data| == |data.Keys|;
        var oldest := Oldest(data.Keys);
        ghost var keys := data.Keys;
        data := data - {oldest};
        assert data.Keys == keys - {oldest};
      }
      assert |data| == |data.Keys|;
    }

    method Clear()
      modifies this
      ensures data == map[]
    {
      data := map[];
    }
  }

  // ---- the unbounded log

  function VotesAt(log: seq<RewardVote>, t: int): seq<RewardVote> {
    if log == [] then []
    else
      var v := log[|log| - 1];
      VotesAt(log[..|log| - 1], t) + if Stamp(v) == t then [v] else []
  }

  /** First arrivals only. */
  function Dedup(votes: seq<RewardVote>): seq<RewardVote> {
    if votes == [] then [] else AddNew(Dedup(votes[..|votes| - 1]), votes[|votes| - 1])
  }

  function Stamps(log: seq<RewardVote>): set<int> {
    set v | v in log :: Stamp(v)
  }

  /** What a cache of size k shows of a log: the k newest timestamps, each with its distinct votes in order of arrival. */
  function View(log: seq<RewardVote>, k: nat): Data {
    map t | t in Newest(Stamps(log), k) :: Dedup(VotesAt(log, t))
  }

  // ---- the newest k

  /** Newest picks k timestamps, or all when there are fewer, and none of those left out is newer. */
  lemma {:induction false} NewestSpec(stamps: set<int>, k: nat)
    ensures var top := Newest(stamps, k);
      && top <= stamps && |top| == (if |stamps| <= k then |stamps| else k)
      && forall x, y :: x in top && y in stamps && y > x ==> y in top
    decreases |stamps|
  {
    if |stamps| > k {
      var rest := stamps - {Oldest(stamps)};
      NewestSpec(rest, k);
      assert stamps == rest + {Oldest(stamps)};
    }
  }

  /** These properties leave only one choice. */
  lemma NewestUnique(stamps: set<int>, one: set<int>, two: set<int>)
    requires one <= stamps && two <= stamps && |one| == |two|
    requires forall x, y :: x in one && y in stamps && y > x ==> y in one
    requires forall x, y :: x in two && y in stamps && y > x ==> y in two
    ensures one == two
  {
    SubsetSame(one, two);
    SubsetSame(two, one);
    NotSubset(one, two);
    NotSubset(two, one);
  }

  lemma {:induction false} SubsetSize(a: set<int>, b: set<int>)
    requires a <= b
    ensures |a| <= |b|
  {
    if a != {} {
      NotSubset(a, {});
      var x :| x in a;
      SubsetSize(a - {x}, b - {x});
    }
  }

  /** A subset that is no smaller is the whole set. */
  lemma SubsetSame(a: set<int>, b: set<int>)
    ensures a <= b && |a| >= |b| ==> a == b
  {
    if a <= b {
      SubsetSize(a, b);
      assert |b - a| == |b| - |a|;
    }
  }

  /** Forgetting what is not among the newest does not change the newest later on. */
  lemma NewestOfNewest(a: set<int>, b: set<int>, k: nat)
    ensures Newest(Newest(a, k) + b, k) == Newest(a + b, k)
  {
    var top, some, all := Newest(a, k), Newest(a, k) + b, a + b;
    NewestSpec(a, k);
    NewestSpec(some, k);
    NewestSpec(all, k);
    SubsetSize(a, all);
    SubsetSize(top, some);
    SubsetSize(some, all);
    if |a| <= k {
      SubsetSame(top, a);
      assert some == all;
    } else {
      var result := Newest(some, k);
      forall x, y | x in result && y in all && y > x ensures y in result {
        if y !in some {
          // then y is older than the k timestamps in top, and so is x, which crowds it out
          assert forall z :: z in top ==> z > y;
          assert top <= result;
          SubsetSame(top, result);
          assert false;
        }
      }
      NewestUnique(all, result, Newest(all, k));
    }
  }

  // ---- the cache refines the log

  lemma {:induction false} VotesAtSpec(log: seq<RewardVote>, t: int)
    ensures VotesAt(log, t) != [] <==> t in Stamps(log)
    ensures forall v :: v in VotesAt(log, t) <==> v in log && Stamp(v) == t
  {
    if log != [] {
      VotesAtSpec(log[..|log| - 1], t);
      assert log == log[..|log| - 1] + [log[|log| - 1]];
      forall v | v in log && Stamp(v) == t ensures t in Stamps(log) { }
      if VotesAt(log, t) != [] {
        var v := VotesAt(log, t)[0];
        assert v in VotesAt(log, t);
      }
    }
  }

  /** Adding votes works on each bucket alone. */
  lemma {:induction false} AddVotesAt(data: Data, log: seq<RewardVote>, votes: seq<RewardVote>, t: int)
    requires Bucket(data, t) == Dedup(VotesAt(log, t))
    ensures Bucket(AddVotes(data, votes), t) == Dedup(VotesAt(log + votes, t))
    decreases |votes|
  {
    if votes == [] {
      assert log + votes == log;
    } else {
      hide Dedup, VotesAt, AddNew, AddVotes, Bucket;
      var init, v := votes[..|votes| - 1], votes[|votes| - 1];
      AddVotesAt(data, log, init, t);
      assert votes == init + [v];
      assert log + votes == (log + init) + [v];
      BucketNext(data, init, v, t);
      DedupNext(log + init, v, t);
    }
  }

  lemma BucketNext(data: Data, votes: seq<RewardVote>, v: RewardVote, t: int)
    ensures var before := Bucket(AddVotes(data, votes), t);
      Bucket(AddVotes(data, votes + [v]), t) == if Stamp(v) == t then AddNew(before, v) else before
  {
    assert (votes + [v])[..|votes|] == votes;
  }

  lemma DedupNext(log: seq<RewardVote>, v: RewardVote, t: int)
    ensures Dedup(VotesAt(log + [v], t)) == if Stamp(v) == t then AddNew(Dedup(VotesAt(log, t)), v) else Dedup(VotesAt(log, t))
  {
    var all := VotesAt(log, t);
    assert (log + [v])[..|log|] == log;
    if Stamp(v) == t {
      assert VotesAt(log + [v], t) == all + [v] && (all + [v])[..|all|] == all;
    } else {
      assert VotesAt(log + [v], t) == all + [] == all;
    }
  }

  /** Updating the bounded cache shows what the longer log shows: nothing kept is ever lost or repeated. */
  lemma UpdateRefinesLog(log: seq<RewardVote>, votes: seq<RewardVote>, k: nat)
    ensures Updated(View(log, k), votes, k) == View(log + votes, k)
  {
    hide AddVotes, Dedup, VotesAt, Newest;
    var data, a, b := View(log, k), Stamps(log), Stamps(votes);
    var added := AddVotes(data, votes);
    AddedKeys(data, votes);
    NewestSpec(a, k);
    NewestSpec(a + b, k);
    NewestSpec(Newest(a, k) + b, k);
    assert data.Keys == Newest(a, k);
    assert Stamps(log + votes) == a + b;
    NewestOfNewest(a, b, k);
    forall t | t in Newest(a + b, k)
      ensures t in added && added[t] == Dedup(VotesAt(log + votes, t))
    {
      BucketOfLog(log, b, k, t);
      AddVotesAt(data, log, votes, t);
    }
  }

  /** A timestamp that is among the newest after an update has all its earlier votes in the cache. */
  lemma BucketOfLog(log: seq<RewardVote>, b: set<int>, k: nat, t: int)
    requires t in Newest(Stamps(log) + b, k)
    ensures Bucket(View(log, k), t) == Dedup(VotesAt(log, t))
  {
    if t in Stamps(log) && t !in Newest(Stamps(log), k) {
      NewestAgain(Stamps(log), b, k, t);
    }
    if t !in Stamps(log) {
      NewestSpec(Stamps(log), k);
      VotesAtSpec(log, t);
    }
  }

  lemma {:induction false} AddedKeys(data: Data, votes: seq<RewardVote>)
    ensures AddVotes(data, votes).Keys == data.Keys + Stamps(votes)
    decreases |votes|
  {
    if votes != [] {
      var init, v := votes[..|votes| - 1], votes[|votes| - 1];
      AddedKeys(data, init);
      assert votes == init + [v];
      assert Stamps(votes) == Stamps(init) + {Stamp(v)};
    }
  }

  /** A timestamp once evicted is never among the newest again. */
  lemma NewestAgain(a: set<int>, b: set<int>, k: nat, t: int)
    requires t in a && t !in Newest(a, k)
    ensures t !in Newest(a + b, k)
  {
    NewestSpec(a, k);
    NewestSpec(a + b, k);
    SubsetSame(Newest(a, k), a);
    var result := Newest(a + b, k);
    if t in result {
      assert Newest(a, k) <= result;
      SubsetSame(Newest(a, k), result);
      assert false;
    }
  }

  /** All updates since the last clear, one after the other. */
  function UpdateAll(batches: seq<seq<RewardVote>>, k: nat): Data {
    if batches == [] then map[] else Updated(UpdateAll(batches[..|batches| - 1], k), batches[|batches| - 1], k)
  }

  function Flatten(batches: seq<seq<RewardVote>>): seq<RewardVote> {
    if batches == [] then [] else Flatten(batches[..|batches| - 1]) + batches[|batches| - 1]
  }

  /**
   * After any sequence of updates the cache holds exactly the k newest timestamps ever seen, each
   * with the first arrivals among all votes ever seen for it.
   */
  lemma {:induction false} CacheRefinesLog(batches: seq<seq<RewardVote>>, k: nat)
    ensures UpdateAll(batches, k) == View(Flatten(batches), k)
  {
    if batches == [] {
      assert Stamps([]) == {};
      NewestSpec({}, k);
    } else {
      CacheRefinesLog(batches[..|batches| - 1], k);
      UpdateRefinesLog(Flatten(batches[..|batches| - 1]), batches[|batches| - 1], k);
    }
  }

  lemma {:induction false} DedupSpec(votes: seq<RewardVote>)
    ensures forall v :: v in Dedup(votes) <==> v in votes
    ensures forall i, j :: 0 <= i < j < |Dedup(votes)| ==> Dedup(votes)[i] != Dedup(votes)[j]
  {
    if votes != [] {
      var init, v := votes[..|votes| - 1], votes[|votes| - 1];
      DedupSpec(init);
      assert votes == init + [v];
    }
  }

  /** The position at which a vote first arrives. */
  function Arrival(votes: seq<RewardVote>, v: RewardVote): (k: nat)
    requires v in votes
    ensures k < |votes| && votes[k] == v && forall i :: 0 <= i < k ==> votes[i] != v
  {
    if votes[0] == v then 0 else 1 + Arrival(votes[1..], v)
  }

  /** The distinct votes are kept in the order of their first arrival. */
  lemma {:induction false} DedupOrder(votes: seq<RewardVote>, i: nat, j: nat)
    requires i < j < |Dedup(votes)|
    ensures Dedup(votes)[i] in votes && Dedup(votes)[j] in votes
    ensures Arrival(votes, Dedup(votes)[i]) < Arrival(votes, Dedup(votes)[j])
  {
    var n := |votes| - 1;
    var init, v := votes[..n], votes[n];
    var kept := Dedup(init);
    DedupSpec(votes);
    DedupSpec(init);
    var x, y := Dedup(votes)[i], Dedup(votes)[j];
    assert x in Dedup(votes) && y in Dedup(votes);
    assert x == kept[i];
    ArrivalInPrefix(votes, n, x);
    if j < |kept| {
      DedupOrder(init, i, j);
      ArrivalInPrefix(votes, n, y);
    } else {
      assert y !in init;
      forall k | 0 <= k < n ensures votes[k] != y { assert init[k] == votes[k]; }
    }
  }

  lemma ArrivalInPrefix(votes: seq<RewardVote>, n: nat, v: RewardVote)
    requires n <= |votes| && v in votes[..n]
    ensures v in votes && Arrival(votes, v) == Arrival(votes[..n], v)
  {
    var k := Arrival(votes[..n], v);
    assert votes[k] == v;
    forall i | 0 <= i < k ensures votes[i] != v { assert votes[..n][i] == votes[i]; }
    assert v in votes;
    var m := Arrival(votes, v);
  }

  /** Indexing the first vote of a bucket is always safe. */
  lemma ViewIsValid(log: seq<RewardVote>, k: nat)
    ensures ValidData(View(log, k))
  {
    var data := View(log, k);
    NewestSpec(Stamps(log), k);
    forall t | t in data
      ensures data[t] != []
      ensures forall v :: v in data[t] ==> Stamp(v) == t
      ensures forall i, j :: 0 <= i < j < |data[t]| ==> data[t][i] != data[t][j]
    {
      VotesAtSpec(log, t);
      DedupSpec(VotesAt(log, t));
      var v := VotesAt(log, t)[0];
      assert v in Dedup(VotesAt(log, t));
    }
  }
}
