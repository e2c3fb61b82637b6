/** Whether the recovered exit signatures are those of the shared keys (src/exits/service.py, src/exits/crypto.py). */
module ExitRecovery {
  import opened Wrappers
  import opened Dicts
  import opened PrimeField
  import opened Lagrange
  import opened Crypto
  import opened Exits
  import opened ExitRuns

  // ---- end to end

  /** Oracle o answers for validator v with share o of the sharing of v's exit signature. */
  ghost predicate HonestAnswers<G, S>(c: Curve<G, S>, p: int, h: int -> G, f: int -> seq<int>, answers: Answers<S>)
    requires p > 0
  {
    forall o, k :: 0 <= o < |answers| && answers[o].Some? && 0 <= k < |answers[o].value| ==>
      var e := answers[o].value[k];
      e.signature == ShareOf(c, p, h(e.index), f(e.index), o)
  }

  /** Each oracle names validator v at most once. */
  ghost predicate ListsOnce<S>(answers: Answers<S>, v: int) {
    forall o, j, k :: 0 <= o < |answers| && answers[o].Some? && 0 <= j < k < |answers[o].value| ==>
      !(answers[o].value[j].index == v && answers[o].value[k].index == v)
  }

  /** The shares come from the oracles below n, with ascending index. */
  ghost predicate Ascending<S>(shares: seq<Share<S>>, n: int) {
    && (forall k :: 0 <= k < |shares| ==> 0 <= shares[k].shareIndex < n)
    && (forall j, k :: 0 <= j < k < |shares| ==> shares[j].shareIndex < shares[k].shareIndex)
  }

  lemma {:induction false} ListedByIsSingle<S>(entries: seq<Entry<S>>, v: int, o: int)
    requires forall j, k :: 0 <= j < k < |entries| ==> !(entries[j].index == v && entries[k].index == v)
    ensures |ListedBy(entries, v, o)| <= 1
    ensures ListedBy(entries, v, o) != [] ==> exists k :: 0 <= k < |entries| && entries[k].index == v
    ensures forall s :: s in ListedBy(entries, v, o) ==> s.shareIndex == o
  {
    if entries != [] {
      ListedByIsSingle(entries[..|entries| - 1], v, o);
    }
  }

  lemma {:induction false} SharesAscend<S>(answers: Answers<S>, v: int)
    requires ListsOnce(answers, v)
    ensures Ascending(SharesOf(answers, v), |answers|)
  {
    if answers != [] {
      var o := |answers| - 1;
      assert ListsOnce(answers[..o], v);
      SharesAscend(answers[..o], v);
      if answers[o].Some? {
        ListedByIsSingle(answers[o].value, v, o);
      }
    }
  }

  lemma {:induction false} ListedByHonest<G, S>(c: Curve<G, S>, p: int, h: G, f: seq<int>, entries: seq<Entry<S>>, v: int, o: int)
    requires p > 0
    requires forall k :: 0 <= k < |entries| && entries[k].index == v ==> entries[k].signature == ShareOf(c, p, h, f, o)
    ensures forall s :: s in ListedBy(entries, v, o) ==> s.shareIndex == o && s.signature == ShareOf(c, p, h, f, s.shareIndex)
  {
    if entries != [] {
      ListedByHonest(c, p, h, f, entries[..|entries| - 1], v, o);
    }
  }

  lemma {:induction false} SharesHonest<G, S>(c: Curve<G, S>, p: int, h: int -> G, f: int -> seq<int>, answers: Answers<S>, v: int)
    requires p > 0 && HonestAnswers(c, p, h, f, answers)
    ensures forall s :: s in SharesOf(answers, v) ==>
      0 <= s.shareIndex < |answers| && s.signature == ShareOf(c, p, h(v), f(v), s.shareIndex)
  {
    if answers != [] {
      var o := |answers| - 1;
      assert HonestAnswers(c, p, h, f, answers[..o]);
      SharesHonest(c, p, h, f, answers[..o], v);
      if answers[o].Some? {
        ListedByHonest(c, p, h(v), f(v), answers[o].value, v, o);
      }
    }
  }

  /** The entry for an index is the last share with it, and every share has an entry for its index. */
  lemma {:induction false} ShareDictEntries<S>(shares: seq<Share<S>>)
    ensures forall k :: 0 <= k < |shares| ==> shares[k].shareIndex in ShareDict(shares).at
    ensures forall i :: i in ShareDict(shares).at ==> exists k :: LastShare(shares, i, k, ShareDict(shares).at[i])
  {
    if shares != [] {
      var n := |shares| - 1;
      var init := shares[..n];
      ShareDictEntries(init);
      var d, d' := ShareDict(init), ShareDict(shares);
      forall i | i in d'.at ensures exists k :: LastShare(shares, i, k, d'.at[i]) {
        if i == shares[n].shareIndex {
          assert LastShare(shares, i, n, d'.at[i]);
        } else {
          var k :| LastShare(init, i, k, d.at[i]);
          assert LastShare(shares, i, k, d'.at[i]);
        }
      }
    }
  }

  /** Share k is the last one with index i. */
  ghost predicate LastShare<S>(shares: seq<Share<S>>, i: int, k: int, signature: S) {
    && 0 <= k < |shares| && shares[k].shareIndex == i && shares[k].signature == signature
    && forall j :: k < j < |shares| ==> shares[j].shareIndex != i
  }

  /** With ascending indexes nothing is overwritten: the length check bounds the size of the dictionary. */
  lemma {:induction false} ShareDictKeepsAll<S>(shares: seq<Share<S>>, n: int)
    requires Ascending(shares, n)
    ensures |ShareDict(shares).order| == |shares|
    ensures forall k :: 0 <= k < |shares| ==> ShareDict(shares).order[k] == shares[k].shareIndex
  {
    if shares != [] {
      var init, last := shares[..|shares| - 1], shares[|shares| - 1];
      ShareDictKeepsAll(init, n);
      var d := ShareDict(init);
      assert last.shareIndex !in d.order by {
        forall k | 0 <= k < |d.order| ensures d.order[k] != last.shareIndex {
          assert d.order[k] == init[k].shareIndex == shares[k].shareIndex;
        }
      }
    }
  }

  /** Distinct indexes below the group order are distinct modulo it. */
  lemma SmallIndexesDistinct(p: int, keys: seq<int>)
    requires p > 0 && NoDup(keys) && forall i :: i in keys ==> 0 <= i < p
    ensures DistinctMod(p, keys)
  {
    forall a, b | 0 <= a < b < |keys| ensures !Cong(p, keys[a], keys[b]) {
      assert keys[a] in keys && keys[b] in keys && keys[a] != keys[b];
      assert keys[a] % p == keys[a] && keys[b] % p == keys[b];
      if Cong(p, keys[a], keys[b]) {
        CongSameResidue(p, keys[a], keys[b]);
        assert false;
      }
    }
  }

  /** What honest answers put in the dictionary of a validator. */
  lemma HonestShareDict<G(!new), S(!new)>(c: Curve<G, S>, p: int, h: int -> G, f: int -> seq<int>, answers: Answers<S>, v: int)
    requires p > 0 && HonestAnswers(c, p, h, f, answers) && |answers| <= p
    ensures var d := ShareDict(SharesOf(answers, v));
      d.Valid() && DistinctMod(p, d.order) && Honest(c, p, h(v), f(v), d)
  {
    var shares := SharesOf(answers, v);
    var d := ShareDict(shares);
    SharesHonest(c, p, h, f, answers, v);
    ShareDictEntries(shares);
    forall i | i in d.at ensures 0 <= i < p && d.at[i] == ShareOf(c, p, h(v), f(v), i) {
      var k :| LastShare(shares, i, k, d.at[i]);
      assert shares[k] in shares;
    }
    SmallIndexesDistinct(p, d.order);
  }

  /** The oracles whose answer names validator v: each is one share index. */
  ghost function Oracles<S>(answers: Answers<S>, v: int): set<int> {
    set o | 0 <= o < |answers| && answers[o].Some? && v in Indexes(answers[o].value)
  }

  lemma {:induction false} NoDupSize(s: seq<int>, all: set<int>)
    requires NoDup(s) && forall i :: i in s <==> i in all
    ensures |s| == |all|
  {
    if s == [] {
      assert all == {} by {
        forall i ensures i !in all { assert i in s <==> i in all; }
      }
    } else {
      var init, last := s[..|s| - 1], s[|s| - 1];
      assert forall i :: i in s <==> i == last || i in init;
      NoDupSize(init, all - {last});
    }
  }

  /** The dictionary of a validator has one share index for each oracle that names it, however often. */
  lemma ShareDictOracles<S(!new)>(answers: Answers<S>, v: int)
    ensures var d := ShareDict(SharesOf(answers, v));
      d.Valid() && (forall i :: i in d.order <==> i in Oracles(answers, v)) && |d.order| == |Oracles(answers, v)|
  {
    var shares := SharesOf(answers, v);
    var d := ShareDict(shares);
    ShareDictEntries(shares);
    forall i ensures i in d.at <==> i in Oracles(answers, v) {
      if i in d.at {
        var k :| LastShare(shares, i, k, d.at[i]);
        assert shares[k] in shares;
        SharesOfSpec(answers, v, shares[k]);
        IndexesAt(answers[i].value);
      }
      if i in Oracles(answers, v) {
        var entries := answers[i].value;
        IndexesAt(entries);
        var k :| 0 <= k < |entries| && Indexes(entries)[k] == v;
        var s := Share(v, entries[k].signature, i);
        assert entries[k] == Entry(v, s.signature);
        SharesOfSpec(answers, v, s);
        assert s in shares;
      }
    }
    NoDupSize(d.order, Oracles(answers, v));
  }

  /** Where no oracle repeats itself, the number of shares is the number of oracles. */
  lemma OneShareEach<S(!new)>(answers: Answers<S>, v: int)
    requires ListsOnce(answers, v)
    ensures |Oracles(answers, v)| == |SharesOf(answers, v)|
  {
    SharesAscend(answers, v);
    ShareDictKeepsAll(SharesOf(answers, v), |answers|);
    ShareDictOracles(answers, v);
  }

  /**
   * Honest oracles, of which at least as many name the validator as its sharing has coefficients: the
   * recovered signature is the one of the shared key.
   */
  lemma RecoveredSignatureIsRight<G(!new), S(!new)>(
      c: Curve<G, S>, p: int, h: int -> G, f: int -> seq<int>, answers: Answers<S>, v: int)
    requires IsPrime(p) && Lawful(c, p) && |answers| <= p
    requires HonestAnswers(c, p, h, f, answers) && |f(v)| <= |Oracles(answers, v)|
    ensures Recovered(c, p, answers, v) == Some(FullSignature(c, p, h(v), f(v)))
  {
    HonestShareDict(c, p, h, f, answers, v);
    ShareDictOracles(answers, v);
    HonestSharesReconstruct(c, p, h(v), f(v), ShareDict(SharesOf(answers, v)));
  }

  /** The length check is not passed by repeated lines: enough shares come from enough oracles. */
  ghost predicate ChecksOracles<S>(answers: Answers<S>, threshold: int, v: int) {
    |SharesOf(answers, v)| >= threshold ==> |Oracles(answers, v)| >= threshold
  }

  /** A run over such answers submits the right signature for exactly the validators that are due. */
  lemma HonestRun<G(!new), S(!new)>(
      c: Curve<G, S>, p: int, h: int -> G, f: int -> seq<int>, answers: Answers<S>, size: int, node: Node, threshold: int,
      submitted: seq<(int, S)>, finished: bool)
    requires IsPrime(p) && Lawful(c, p) && |answers| <= p
    requires HonestAnswers(c, p, h, f, answers)
    requires forall v :: |f(v)| <= threshold && (ListsOnce(answers, v) || ChecksOracles(answers, threshold, v))
    requires Outcome(c, p, answers, size, node, threshold, submitted, finished)
    ensures finished <==> Removable(answers, size, node)
    ensures !finished ==> submitted == []
    ensures finished ==> forall v, s ::
      (v, s) in submitted <==> Due(answers, size, node, threshold, v) && s == FullSignature(c, p, h(v), f(v))
  {
    if Removable(answers, size, node) {
      OutcomeSpec(c, p, answers, size, node, threshold, submitted, finished);
      forall v | Due(answers, size, node, threshold, v)
        ensures Recovered(c, p, answers, v) == Some(FullSignature(c, p, h(v), f(v)))
      {
        assert |f(v)| <= threshold && (ListsOnce(answers, v) || ChecksOracles(answers, threshold, v));
        if ListsOnce(answers, v) {
          OneShareEach(answers, v);
        }
        RecoveredSignatureIsRight(c, p, h, f, answers, v);
      }
    }
  }

  /**
   * With honest oracles that do not repeat themselves and a node that answers, the run finishes and
   * submits the signature of the shared key for exactly the validators that at least threshold oracles
   * name and that are not exiting, in the order in which they are first named.
   */
  lemma HonestRunExact<G(!new), S(!new)>(
      c: Curve<G, S>, p: int, h: int -> G, f: int -> seq<int>, answers: Answers<S>, size: int, node: Node, exiting: int -> bool,
      threshold: int, submitted: seq<(int, S)>, finished: bool)
    requires IsPrime(p) && Lawful(c, p) && |answers| <= p
    requires HonestAnswers(c, p, h, f, answers)
    requires forall v :: ListsOnce(answers, v) && |f(v)| <= threshold
    requires size >= 1 && forall batch :: node(batch) == Some(Answer(batch, exiting))
    requires Outcome(c, p, answers, size, node, threshold, submitted, finished)
    ensures finished
    ensures forall v, s :: (v, s) in submitted <==>
      && Oracles(answers, v) != {} && |Oracles(answers, v)| >= threshold && !exiting(v)
      && s == FullSignature(c, p, h(v), f(v))
    ensures forall j, k :: 0 <= j < k < |submitted| ==> NamedBefore(answers, submitted[j].0, submitted[k].0)
  {
    hide Outcome, Removable, Lawful, HonestAnswers, ListsOnce, Oracles, FullSignature, NamedBefore, SharesOf, Reported, Validators;
    AnsweringNode(answers, size, node, exiting);
    HonestRun(c, p, h, f, answers, size, node, threshold, submitted, finished);
    SubmittedInOrder(c, p, answers, size, node, threshold, submitted, finished);
    forall v ensures Due(answers, size, node, threshold, v) <==>
      Oracles(answers, v) != {} && |Oracles(answers, v)| >= threshold && !exiting(v)
    {
      assert ListsOnce(answers, v);
      OneShareEach(answers, v);
      NamedHasShare(answers, v);
      assert Oracles(answers, v) == {} <==> |Oracles(answers, v)| == 0;
    }
  }

  lemma NamedHasShare<S>(answers: Answers<S>, v: int)
    ensures v in Validators(answers) <==> SharesOf(answers, v) != []
  {
    FirstSeenMembers(AllIndexes(answers));
    AllIndexesMembers(answers, v);
  }

  // ---- how many oracles it takes

  /**
   * Honest answers, with repeated lines or too few of them: the recovered signature is right exactly
   * when what is left of the polynomial after dividing it by the points of the shares vanishes at 0.
   */
  lemma RecoveryExact<G(!new), S(!new)>(c: Curve<G, S>, p: int, h: int -> G, f: int -> seq<int>, answers: Answers<S>, v: int)
    requires IsPrime(p) && Lawful(c, p) && |answers| < p && h(v) != c.zero
    requires HonestAnswers(c, p, h, f, answers)
    ensures Recovered(c, p, answers, v) == Some(FullSignature(c, p, h(v), f(v)))
      <==> Cong(p, Eval(Divide(f(v), ShareDict(SharesOf(answers, v)).order), 0), 0)
  {
    hide Lawful, Cong, Reconstruct, FullSignature, SharesOf, ShareDict, Divide, Honest;
    var d := ShareDict(SharesOf(answers, v));
    HonestShareDict(c, p, h, f, answers, v);
    ReconstructsExactly(c, p, h(v), f(v), d);
    ShareDictOracles(answers, v);
    forall a | 0 <= a < |d.order| ensures !Cong(p, d.order[a], -1) {
      assert d.order[a] in d.order;
      BelowMinusOne(p, d.order[a]);
    }
  }

  lemma BelowMinusOne(p: int, i: int)
    requires 0 <= i < p - 1
    ensures !Cong(p, i, -1)
  {
    CongZero(p, i, -1);
  }

  /** What the oracles list, without the signatures. */
  type Listing = seq<Option<seq<int>>>

  /** The honest answers with a given listing. */
  function Signed<G, S>(c: Curve<G, S>, p: int, h: int -> G, f: int -> seq<int>, listing: Listing): Answers<S>
    requires p > 0
  {
    seq(|listing|, o requires 0 <= o < |listing| =>
      if listing[o] == None then None else Some(SignedLines(c, p, h, f, listing[o].value, o)))
  }

  function SignedLines<G, S>(c: Curve<G, S>, p: int, h: int -> G, f: int -> seq<int>, indexes: seq<int>, o: int): seq<Entry<S>>
    requires p > 0
  {
    seq(|indexes|, k requires 0 <= k < |indexes| => Entry(indexes[k], ShareOf(c, p, h(indexes[k]), f(indexes[k]), o)))
  }

  ghost function Listers(listing: Listing, v: int): set<int> {
    set o | 0 <= o < |listing| && listing[o].Some? && v in listing[o].value
  }

  lemma SignedSpec<G, S>(c: Curve<G, S>, p: int, h: int -> G, f: int -> seq<int>, listing: Listing, v: int)
    requires p > 0
    ensures HonestAnswers(c, p, h, f, Signed(c, p, h, f, listing))
    ensures Oracles(Signed(c, p, h, f, listing), v) == Listers(listing, v)
  {
    var answers := Signed(c, p, h, f, listing);
    forall o | 0 <= o < |answers| && answers[o].Some? ensures Indexes(answers[o].value) == listing[o].value {
      IndexesAt(answers[o].value);
    }
  }

  function ListingOf<S>(answers: Answers<S>): Listing {
    seq(|answers|, o requires 0 <= o < |answers| =>
      if answers[o].None? then None else Some(Indexes(answers[o].value)))
  }

  /** Honest answers are the signed ones. */
  lemma HonestIsSigned<G, S>(c: Curve<G, S>, p: int, h: int -> G, f: int -> seq<int>, answers: Answers<S>)
    requires p > 0 && HonestAnswers(c, p, h, f, answers)
    ensures answers == Signed(c, p, h, f, ListingOf(answers))
  {
    var listing := ListingOf(answers);
    forall o | 0 <= o < |answers| ensures answers[o] == Signed(c, p, h, f, listing)[o] {
      if answers[o].Some? {
        var entries := answers[o].value;
        IndexesAt(entries);
        assert entries == SignedLines(c, p, h, f, listing[o].value, o);
      }
    }
  }

  lemma EvalConstant(f: seq<int>)
    requires |f| == 1
    ensures Eval(f, 0) == f[0]
  {
  }

  /** A sharing that any number of shares below the count of its coefficients reconstructs wrongly. */
  function Monomial(n: nat): seq<int> {
    seq(n, _ => 0) + [1]
  }

  /**
   * Whatever the oracles list: every sharing of at most threshold coefficients is recovered if and only
   * if at least threshold different oracles name the validator.
   */
  lemma EnoughOraclesExactly<G(!new), S(!new)>(c: Curve<G, S>, p: int, h: int -> G, listing: Listing, threshold: int, v: int)
    requires IsPrime(p) && Lawful(c, p) && |listing| < p && h(v) != c.zero
    ensures |Listers(listing, v)| >= threshold
      <==> forall f: int -> seq<int> :: |f(v)| <= threshold ==>
             Recovered(c, p, Signed(c, p, h, f, listing), v) == Some(FullSignature(c, p, h(v), f(v)))
  {
    hide Recovered, FullSignature, Divide, Eval, Lawful, Cong, SharesOf, ShareDict, Oracles, Listers, Signed;
    var m := |Listers(listing, v)|;
    if m >= threshold {
      forall f: int -> seq<int> | |f(v)| <= threshold
        ensures Recovered(c, p, Signed(c, p, h, f, listing), v) == Some(FullSignature(c, p, h(v), f(v)))
      {
        RecoveredFrom(c, p, h, f, listing, v);
        EmptyRemainder(p, f(v), ShareDict(SharesOf(Signed(c, p, h, f, listing), v)).order);
      }
    } else {
      var f := (_: int) => Monomial(m);
      RecoveredFrom(c, p, h, f, listing, v);
      UnitRemainder(p, f(v), ShareDict(SharesOf(Signed(c, p, h, f, listing), v)).order);
    }
  }

  /**
   * So for lines as in given answers, passing the length check makes the signature right for every
   * sharing of at most threshold coefficients if and only if the check is not passed by repeated lines.
   */
  lemma LengthCheckExact<G(!new), S(!new)>(c: Curve<G, S>, p: int, h: int -> G, answers: Answers<S>, threshold: int, v: int)
    requires IsPrime(p) && Lawful(c, p) && |answers| < p && h(v) != c.zero
    ensures ChecksOracles(answers, threshold, v)
      <==> (|SharesOf(answers, v)| >= threshold ==> forall f: int -> seq<int> :: |f(v)| <= threshold ==>
              Recovered(c, p, Signed(c, p, h, f, ListingOf(answers)), v) == Some(FullSignature(c, p, h(v), f(v))))
  {
    hide Recovered, FullSignature, Lawful, SharesOf, Signed;
    EnoughOraclesExactly(c, p, h, ListingOf(answers), threshold, v);
    assert Listers(ListingOf(answers), v) == Oracles(answers, v);
  }

  lemma RecoveredFrom<G(!new), S(!new)>(c: Curve<G, S>, p: int, h: int -> G, f: int -> seq<int>, listing: Listing, v: int)
    requires IsPrime(p) && Lawful(c, p) && |listing| < p && h(v) != c.zero
    ensures var order := ShareDict(SharesOf(Signed(c, p, h, f, listing), v)).order;
      && |order| == |Listers(listing, v)|
      && (Recovered(c, p, Signed(c, p, h, f, listing), v) == Some(FullSignature(c, p, h(v), f(v)))
          <==> Cong(p, Eval(Divide(f(v), order), 0), 0))
  {
    hide Recovered, FullSignature, Lawful, Divide, Eval, Cong, SharesOf, ShareDict;
    var answers := Signed(c, p, h, f, listing);
    SignedSpec(c, p, h, f, listing, v);
    RecoveryExact(c, p, h, f, answers, v);
    ShareDictOracles(answers, v);
  }

  lemma EmptyRemainder(p: int, f: seq<int>, keys: seq<int>)
    requires |f| <= |keys|
    ensures Cong(p, Eval(Divide(f, keys), 0), 0)
  {
    CongRefl(p, 0);
  }

  lemma UnitRemainder(p: int, f: seq<int>, keys: seq<int>)
    requires IsPrime(p) && f == Monomial(|keys|)
    ensures !Cong(p, Eval(Divide(f, keys), 0), 0)
  {
    DivideKeepsLead(f, keys);
    EvalConstant(Divide(f, keys));
    CongZero(p, 1, 0);
  }

  /**
   * The length check counts repeated lines of one oracle: if a single oracle lists a validator twice,
   * a threshold of two is met and the submitted signature is wrong, for every sharing of degree one.
   */
  lemma RepeatedLineDefeatsThreshold<G(!new), S(!new)>(c: Curve<G, S>, p: int, h: G, f: seq<int>, v: int)
    requires IsPrime(p) && Lawful(c, p) && h != c.zero
    requires |f| == 2 && !Cong(p, f[1], 0)
    ensures var e := Entry(v, ShareOf(c, p, h, f, 0));
      var shares := SharesOf([Some([e, e])], v);
      |shares| == 2 && Reconstruct(c, p, ShareDict(shares)) != Some(FullSignature(c, p, h, f))
  {
    hide Reconstruct, Lawful, Cong, SharesOf, ShareDict, ShareOf, FullSignature;
    var e := Entry(v, ShareOf(c, p, h, f, 0));
    var s := Share(v, e.signature, 0);
    TwoLines(e, s);
    MinusOneApart(p);
    ReconstructsExactly(c, p, h, f, ShareDict([s, s]));
    DivideKeepsLead(f, [0]);
    EvalConstant(Divide(f, [0]));
  }

  lemma TwoLines<S>(e: Entry<S>, s: Share<S>)
    requires s == Share(e.index, e.signature, 0)
    ensures SharesOf([Some([e, e])], e.index) == [s, s]
    ensures ShareDict([s, s]) == Dict([0], map[0 := e.signature])
  {
    assert [e, e][..1] == [e] && [e][..0] == [];
    assert ListedBy([e], e.index, 0) == [s];
    assert ListedBy([e, e], e.index, 0) == [s, s];
    assert [Some([e, e])][..0] == [];
    assert SharesOf<S>([], e.index) == [];
    assert [s, s][..1] == [s] && [s][..0] == [];
    assert ShareDict([s]) == Dict([0], map[0 := e.signature]);
  }

  lemma MinusOneApart(p: int)
    requires IsPrime(p)
    ensures p > 0 && !Cong(p, 0, -1)
    ensures DistinctMod(p, [0])
  {
    CongZero(p, 0, -1);
  }
}
