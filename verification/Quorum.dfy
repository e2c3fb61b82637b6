/** Counting vote bodies, and the most common one (collections.Counter as both vote services use it). */
module Quorum {
  function Count<B(==)>(s: seq<B>, b: B): nat {
    if s == [] then 0 else Count(s[1..], b) + if s[0] == b then 1 else 0
  }

  lemma {:induction false} CountPositive<B>(s: seq<B>, b: B)
    ensures Count(s, b) > 0 <==> b in s
  {
    if s != [] {
      CountPositive(s[1..], b);
    }
  }

  /** Count is multiplicity. */
  lemma {:induction false} CountIsMultiplicity<B>(s: seq<B>, b: B)
    ensures Count(s, b) == multiset(s)[b]
  {
    if s != [] {
      CountIsMultiplicity(s[1..], b);
      assert s == [s[0]] + s[1..];
    }
  }

  /** The first position below n whose element is most common in s. */
  function BestIndex<B(==)>(s: seq<B>, n: nat): (j: nat)
    requires 0 < n <= |s|
    ensures j < n
    ensures forall i :: 0 <= i < n ==> Count(s, s[i]) <= Count(s, s[j])
    ensures forall i :: 0 <= i < j ==> Count(s, s[i]) < Count(s, s[j])
  {
    if n == 1 then 0
    else
      var j := BestIndex(s, n - 1);
      if Count(s, s[n - 1]) > Count(s, s[j]) then n - 1 else j
  }

  /** Counter(s).most_common(1)[0]: a most common element, the first seen among equals. */
  function MostCommon<B(==)>(s: seq<B>): B
    requires s != []
  {
    s[BestIndex(s, |s|)]
  }

  lemma MostCommonSpec<B(!new)>(s: seq<B>)
    requires s != []
    ensures MostCommon(s) in s
    ensures forall b :: Count(s, b) <= Count(s, MostCommon(s))
    ensures exists j :: 0 <= j < |s| && s[j] == MostCommon(s) && forall i :: 0 <= i < j ==> Count(s, s[i]) < Count(s, s[j])
  {
    assert s[BestIndex(s, |s|)] == MostCommon(s);
    forall b ensures Count(s, b) <= Count(s, MostCommon(s)) {
      CountPositive(s, b);
      if b in s {
        var i :| 0 <= i < |s| && s[i] == b;
      }
    }
  }

  /** Some element has at least threshold occurrences. */
  ghost predicate HasQuorum<B(!new)>(s: seq<B>, threshold: nat) {
    exists b :: b in s && Count(s, b) >= threshold
  }

  lemma QuorumIsMostCommon<B(!new)>(s: seq<B>, threshold: nat)
    requires s != []
    ensures HasQuorum(s, threshold) <==> Count(s, MostCommon(s)) >= threshold
  {
    MostCommonSpec(s);
  }
}
