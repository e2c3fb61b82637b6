/** The chain's log of one contract event, and the last event of a block range. */
module EventLog {
  import opened Wrappers

  /** A ConfigUpdated event: its block and its configIpfsHash argument. */
  datatype Event = Event(block: nat, ipfsHash: string)

  ghost predicate Ordered(log: seq<Event>) {
    forall a, b :: 0 <= a < b < |log| ==> log[a].block <= log[b].block
  }

  /** eth_getLogs: the events of the closed range from..to, in log order. */
  function GetLogs(log: seq<Event>, from: int, to: int): seq<Event> {
    if log == [] then []
    else
      var e := log[|log| - 1];
      GetLogs(log[..|log| - 1], from, to) + if from <= e.block <= to then [e] else []
  }

  /** The last event of the closed range from..to. */
  function LastIn(log: seq<Event>, from: int, to: int): Option<Event> {
    if log == [] then None
    else
      var e := log[|log| - 1];
      if from <= e.block <= to then Some(e) else LastIn(log[..|log| - 1], from, to)
  }

  /** LastIn is the event at the greatest position inside the range, and None only when no position is. */
  lemma {:induction false} LastInSpec(log: seq<Event>, from: int, to: int)
    ensures match LastIn(log, from, to)
      case None => forall k :: 0 <= k < |log| ==> !(from <= log[k].block <= to)
      case Some(e) =>
        from <= e.block <= to && exists k :: 0 <= k < |log| && log[k] == e && forall j :: k < j < |log| ==> !(from <= log[j].block <= to)
  {
    if log != [] {
      var n := |log| - 1;
      LastInSpec(log[..n], from, to);
      if from <= log[n].block <= to {
        assert LastIn(log, from, to) == Some(log[n]);
      } else if LastIn(log, from, to).Some? {
        var e := LastIn(log, from, to).value;
        var k :| 0 <= k < n && log[..n][k] == e && forall j :: k < j < n ==> !(from <= log[..n][j].block <= to);
        forall j | k < j < |log| ensures !(from <= log[j].block <= to) {
          if j < n { assert log[..n][j] == log[j]; }
        }
        assert log[k] == e;
      } else {
        forall k | 0 <= k < |log| ensures !(from <= log[k].block <= to) {
          if k < n { assert log[..n][k] == log[k]; }
        }
      }
    }
  }

  lemma {:induction false} LastOfLogs(log: seq<Event>, from: int, to: int)
    ensures var events := GetLogs(log, from, to);
      LastIn(log, from, to) == if events == [] then None else Some(events[|events| - 1])
  {
    if log != [] {
      LastOfLogs(log[..|log| - 1], from, to);
    }
  }

  lemma {:induction false} LastInRange(log: seq<Event>, from: int, to: int)
    ensures LastIn(log, from, to).Some? ==> from <= LastIn(log, from, to).value.block <= to
    ensures to < from ==> LastIn(log, from, to) == None
  {
    if log != [] {
      LastInRange(log[..|log| - 1], from, to);
    }
  }

  /** A range may be searched from its upper part downwards. */
  lemma {:induction false} LastSplit(log: seq<Event>, from: int, m: int, to: int)
    requires Ordered(log) && from - 1 <= m <= to
    ensures LastIn(log, from, to)
         == if LastIn(log, m + 1, to).Some? then LastIn(log, m + 1, to) else LastIn(log, from, m)
  {
    if log != [] {
      var init, e := log[..|log| - 1], log[|log| - 1];
      LastSplit(init, from, m, to);
      if from <= e.block <= m {
        NothingAbove(init, e.block, m + 1, to);
      }
    }
  }

  lemma {:induction false} NothingAbove(log: seq<Event>, b: int, from: int, to: int)
    requires forall k :: 0 <= k < |log| ==> log[k].block <= b
    requires b < from
    ensures LastIn(log, from, to) == None
  {
    if log != [] {
      NothingAbove(log[..|log| - 1], b, from, to);
    }
  }

  /** The part of the log up to block h. */
  function Upto(log: seq<Event>, h: int): seq<Event> {
    GetLogs(log, 0, h)
  }

  lemma {:induction false} LastInUpto(log: seq<Event>, from: int, to: int, h: int)
    requires to <= h
    ensures LastIn(log, from, to) == LastIn(Upto(log, h), from, to)
  {
    if log != [] {
      var init, e := log[..|log| - 1], log[|log| - 1];
      LastInUpto(init, from, to, h);
      var kept := Upto(init, h);
      if e.block > h {
        assert Upto(log, h) == kept + [] == kept;
      } else {
        assert Upto(log, h) == kept + [e] && (kept + [e])[..|kept|] == kept;
      }
    }
  }
}
