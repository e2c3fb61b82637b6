/** Stable sorting, filtering, and the selection of the first few votes in an order. */
module Sorting {

  ghost predicate Preorder<T(!new)>(le: (T, T) -> bool) {
    && (forall x, y :: le(x, y) || le(y, x))
    && (forall x, y, z :: le(x, y) && le(y, z) ==> le(x, z))
  }

  ghost predicate Sorted<T>(s: seq<T>, le: (T, T) -> bool) {
    forall i, j :: 0 <= i < j < |s| ==> le(s[i], s[j])
  }

  function Insert<T>(x: T, s: seq<T>, le: (T, T) -> bool): seq<T> {
    if s == [] then [x]
    else if le(x, s[0]) then [x] + s
    else [s[0]] + Insert(x, s[1..], le)
  }

  /** Sorting that keeps elements of equal rank in their order. */
  function SortBy<T>(s: seq<T>, le: (T, T) -> bool): seq<T> {
    if s == [] then [] else Insert(s[0], SortBy(s[1..], le), le)
  }

  function Filter<T>(s: seq<T>, p: T -> bool): seq<T> {
    if s == [] then []
    else if p(s[0]) then [s[0]] + Filter(s[1..], p)
    else Filter(s[1..], p)
  }

  lemma {:induction false} FilterSpec<T>(s: seq<T>, p: T -> bool)
    ensures forall x :: x in Filter(s, p) ==> x in s && p(x)
    ensures forall x :: x in s && p(x) ==> x in Filter(s, p)
  {
    if s != [] {
      FilterSpec(s[1..], p);
    }
  }

  lemma FilterCons<T>(y: T, t: seq<T>, p: T -> bool)
    ensures Filter([y] + t, p) == if p(y) then [y] + Filter(t, p) else Filter(t, p)
  {
    assert ([y] + t)[1..] == t;
  }

  lemma {:induction false} FilterSnoc<T>(s: seq<T>, x: T, p: T -> bool)
    ensures Filter(s + [x], p) == Filter(s, p) + if p(x) then [x] else []
  {
    hide Filter;
    if s == [] {
      FilterCons(x, [], p);
      FilterNothing(p);
      assert [] + [x] == [x] + [];
    } else {
      var y, t := s[0], s[1..];
      assert s == [y] + t && s + [x] == [y] + (t + [x]);
      FilterSnoc(t, x, p);
      FilterCons(y, t, p);
      FilterCons(y, t + [x], p);
    }
  }

  lemma FilterNothing<T>(p: T -> bool)
    ensures Filter([], p) == []
  {
  }

  /** The elements kept are those at the positions at, which are all that satisfy p, in order. */
  ghost predicate Keeps<T(!new)>(s: seq<T>, p: T -> bool, kept: seq<T>, at: seq<nat>) {
    && |at| == |kept|
    && (forall i :: 0 <= i < |at| ==> at[i] < |s| && kept[i] == s[at[i]] && p(s[at[i]]))
    && (forall i, j :: 0 <= i < j < |at| ==> at[i] < at[j])
    && (forall k :: 0 <= k < |s| && p(s[k]) ==> k in at)
  }

  /** A filter keeps exactly the positions that satisfy p, in order. */
  lemma {:induction false} FilterPositions<T(!new)>(s: seq<T>, p: T -> bool) returns (at: seq<nat>)
    ensures Keeps(s, p, Filter(s, p), at)
    decreases |s|
  {
    at := [];
    if s != [] {
      hide Filter, Keeps;
      var init, x := s[..|s| - 1], s[|s| - 1];
      at := FilterPositions(init, p);
      assert s == init + [x];
      FilterSnoc(init, x, p);
      KeepsNext(init, x, p, Filter(init, p), at);
      at := if p(x) then at + [|init|] else at;
    }
  }

  lemma KeepsNext<T(!new)>(s: seq<T>, x: T, p: T -> bool, kept: seq<T>, at: seq<nat>)
    requires Keeps(s, p, kept, at)
    ensures p(x) ==> Keeps(s + [x], p, kept + [x], at + [|s|])
    ensures !p(x) ==> Keeps(s + [x], p, kept + [], at)
  {
    var all, at' := s + [x], at + [|s|];
    forall k | 0 <= k < |all| && p(all[k]) && p(x) ensures k in at' {
      if k < |s| { assert all[k] == s[k] && k in at; } else { assert at'[|at|] == k; }
    }
    forall k | 0 <= k < |all| && p(all[k]) && !p(x) ensures k in at {
      assert all[k] == s[k];
    }
  }

  ghost function Satisfying<T>(s: seq<T>, p: T -> bool): set<int> {
    set k | 0 <= k < |s| && p(s[k])
  }

  /** The length of a filter is the number of positions that satisfy p. */
  lemma {:induction false} FilterTally<T>(s: seq<T>, p: T -> bool)
    ensures |Filter(s, p)| == |Satisfying(s, p)|
    decreases |s|
  {
    if s == [] {
      assert Satisfying(s, p) == {};
    } else {
      hide Filter;
      var n := |s| - 1;
      FilterTally(s[..n], p);
      assert s == s[..n] + [s[n]];
      FilterSnoc(s[..n], s[n], p);
      assert Satisfying(s, p) == Satisfying(s[..n], p) + if p(s[n]) then {n} else {};
    }
  }

  lemma {:induction false} FilterTwice<T(!new)>(s: seq<T>, p: T -> bool, q: T -> bool, both: T -> bool)
    requires forall x :: both(x) <==> p(x) && q(x)
    ensures Filter(Filter(s, p), q) == Filter(s, both)
  {
    if s != [] {
      FilterTwice(s[1..], p, q, both);
      if p(s[0]) {
        FilterCons(s[0], Filter(s[1..], p), q);
      }
    }
  }

  lemma {:induction false} InsertSpec<T(!new)>(x: T, s: seq<T>, le: (T, T) -> bool)
    requires Preorder(le) && Sorted(s, le)
    ensures Sorted(Insert(x, s, le), le)
    ensures forall y :: y in Insert(x, s, le) <==> y == x || y in s
  {
    if s != [] && !le(x, s[0]) {
      var rest := Insert(x, s[1..], le);
      InsertSpec(x, s[1..], le);
      forall j | 0 <= j < |rest| ensures le(s[0], rest[j]) {
        assert rest[j] in rest;
        if rest[j] != x {
          var k :| 0 <= k < |s| - 1 && s[1..][k] == rest[j];
          assert le(s[0], s[k + 1]);
        }
      }
    }
  }

  lemma {:induction false} SortSpec<T(!new)>(s: seq<T>, le: (T, T) -> bool)
    requires Preorder(le)
    ensures Sorted(SortBy(s, le), le)
    ensures forall y :: y in SortBy(s, le) <==> y in s
  {
    if s != [] {
      SortSpec(s[1..], le);
      InsertSpec(s[0], SortBy(s[1..], le), le);
    }
  }

  lemma {:induction false} InsertMultiset<T>(x: T, s: seq<T>, le: (T, T) -> bool)
    ensures multiset(Insert(x, s, le)) == multiset(s) + multiset{x}
  {
    if s != [] && !le(x, s[0]) {
      InsertMultiset(x, s[1..], le);
      assert s == [s[0]] + s[1..];
    }
  }

  /** Sorting permutes. */
  lemma {:induction false} SortMultiset<T>(s: seq<T>, le: (T, T) -> bool)
    ensures multiset(SortBy(s, le)) == multiset(s)
  {
    if s != [] {
      SortMultiset(s[1..], le);
      InsertMultiset(s[0], SortBy(s[1..], le), le);
      assert s == [s[0]] + s[1..];
    }
  }

  lemma {:induction false} InsertStable<T>(x: T, s: seq<T>, le: (T, T) -> bool, p: T -> bool)
    requires p(x) ==> forall y :: y in s && p(y) ==> le(x, y)
    ensures Filter(Insert(x, s, le), p) == if p(x) then [x] + Filter(s, p) else Filter(s, p)
  {
    hide Filter;
    if s == [] || le(x, s[0]) {
      assert Insert(x, s, le) == [x] + s;
      FilterCons(x, s, p);
    } else {
      var y, t := s[0], s[1..];
      assert s == [y] + t && (p(x) ==> !p(y));
      InsertStable(x, t, le, p);
      FilterCons(y, Insert(x, t, le), p);
      FilterCons(y, t, p);
    }
  }

  /** Sorting is stable: elements of equal rank stay in their order. */
  lemma {:induction false} SortStable<T(!new)>(s: seq<T>, le: (T, T) -> bool, p: T -> bool)
    requires Preorder(le) && forall x, y :: x in s && y in s && p(x) && p(y) ==> le(x, y)
    ensures Filter(SortBy(s, le), p) == Filter(s, p)
  {
    if s != [] {
      SortStable(s[1..], le, p);
      SortSpec(s[1..], le);
      InsertStable(s[0], SortBy(s[1..], le), le, p);
    }
  }

  lemma {:induction false} FilterInsert<T>(x: T, s: seq<T>, le: (T, T) -> bool, p: T -> bool)
    ensures |Filter(Insert(x, s, le), p)| == |Filter(s, p)| + if p(x) then 1 else 0
  {
    if s != [] {
      if le(x, s[0]) {
        assert ([x] + s)[1..] == s;
      } else {
        FilterInsert(x, s[1..], le, p);
        assert ([s[0]] + Insert(x, s[1..], le))[1..] == Insert(x, s[1..], le);
      }
    }
  }

  lemma {:induction false} FilterSort<T>(s: seq<T>, le: (T, T) -> bool, p: T -> bool)
    ensures |Filter(SortBy(s, le), p)| == |Filter(s, p)|
  {
    if s != [] {
      FilterSort(s[1..], le, p);
      FilterInsert(s[0], SortBy(s[1..], le), le, p);
    }
  }

  lemma {:induction false} FilterSorted<T>(s: seq<T>, le: (T, T) -> bool, p: T -> bool)
    requires Sorted(s, le)
    ensures Sorted(Filter(s, p), le)
  {
    if s != [] {
      var rest := Filter(s[1..], p);
      FilterSorted(s[1..], le, p);
      FilterSpec(s[1..], p);
      if p(s[0]) {
        forall j | 0 <= j < |rest| ensures le(s[0], rest[j]) {
          assert rest[j] in rest && rest[j] in s[1..];
          var k :| 0 <= k < |s| - 1 && s[1..][k] == rest[j];
          assert le(s[0], s[k + 1]);
        }
      }
    }
  }

  lemma {:induction false} FilterMultiset<T>(s: seq<T>, p: T -> bool)
    ensures multiset(Filter(s, p)) <= multiset(s)
  {
    if s != [] {
      FilterMultiset(s[1..], p);
      assert s == [s[0]] + s[1..];
    }
  }

  /** The first n elements, in the order le, among those that satisfy p. */
  function Chosen<T>(s: seq<T>, le: (T, T) -> bool, p: T -> bool, n: nat): seq<T> {
    var all := Filter(SortBy(s, le), p);
    if n <= |all| then all[..n] else all
  }

  /** With at least n candidates, exactly n are chosen, in ascending order, and none left out ranks below a chosen one. */
  lemma ChosenSpec<T(!new)>(s: seq<T>, le: (T, T) -> bool, p: T -> bool, n: nat)
    requires Preorder(le) && n <= |Filter(s, p)|
    ensures var chosen := Chosen(s, le, p, n);
      && |chosen| == n
      && (forall x :: x in chosen ==> x in s && p(x))
      && Sorted(chosen, le)
      && multiset(chosen) <= multiset(s)
      && (forall x, y :: x in chosen && y in s && p(y) && y !in chosen ==> le(x, y))
  {
    hide SortBy, Filter, Preorder;
    var sorted := SortBy(s, le);
    var all := Filter(sorted, p);
    SortSpec(s, le);
    SortMultiset(s, le);
    FilterSort(s, le, p);
    FilterSpec(sorted, p);
    FilterSorted(sorted, le, p);
    FilterMultiset(sorted, p);
    PrefixSpec(all, le, n);
  }

  /** A prefix of a sorted sequence holds none that ranks above what follows. */
  lemma PrefixSpec<T(!new)>(all: seq<T>, le: (T, T) -> bool, n: nat)
    requires Sorted(all, le) && n <= |all|
    ensures Sorted(all[..n], le)
    ensures multiset(all[..n]) <= multiset(all)
    ensures forall x, y :: x in all[..n] && y in all && y !in all[..n] ==> le(x, y)
  {
    assert all == all[..n] + all[n..];
    forall k | 0 <= k < n ensures all[k] in all[..n] { assert all[..n][k] == all[k]; }
    forall x, y | x in all[..n] && y in all && y !in all[..n] ensures le(x, y) {
      var i :| 0 <= i < n && all[..n][i] == x;
      var j :| 0 <= j < |all| && all[j] == y;
    }
  }

  /** Two orders that agree on the elements sort alike. */
  lemma {:induction false} SortAgrees<T(!new)>(s: seq<T>, le: (T, T) -> bool, le': (T, T) -> bool)
    requires Preorder(le) && forall x, y :: x in s && y in s ==> le(x, y) == le'(x, y)
    ensures SortBy(s, le) == SortBy(s, le')
  {
    if s != [] {
      SortAgrees(s[1..], le, le');
      SortSpec(s[1..], le);
      InsertAgrees(s[0], SortBy(s[1..], le), le, le');
    }
  }

  lemma {:induction false} InsertAgrees<T>(x: T, s: seq<T>, le: (T, T) -> bool, le': (T, T) -> bool)
    requires forall y :: y in s ==> le(x, y) == le'(x, y)
    ensures Insert(x, s, le) == Insert(x, s, le')
  {
    if s != [] {
      InsertAgrees(x, s[1..], le, le');
    }
  }
}
