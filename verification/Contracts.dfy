/** The backward scan for the last event of a contract (ContractWrapper._get_last_event, src/common/contracts.py). */
module Contracts {
  import opened Wrappers
  import opened EventLog

  /** The execution node: its log, and the range queries that raise. */
  datatype Provider = Provider(log: seq<Event>, down: (int, int) -> bool)

  datatype ScanError = BadBatchSize | QueryFailed

  /** Consecutive, disjoint, descending ranges that make up from..to, all but the last of full width. */
  ghost predicate Partition(ranges: seq<(int, int)>, from: int, to: int, width: int) {
    && (ranges == [] <==> to < from)
    && (ranges != [] ==> ranges[0].1 == to && ranges[|ranges| - 1].0 == from)
    && (forall k :: 0 <= k < |ranges| ==> ranges[k].0 <= ranges[k].1 <= ranges[k].0 + width)
    && (forall k :: 0 <= k < |ranges| - 1 ==> ranges[k].1 == ranges[k].0 + width && ranges[k + 1].1 == ranges[k].0 - 1)
  }

  /** The chunks of from..to, from the top down; a chunk holds one block more than its width. */
  function Chunks(from: int, to: int, width: nat): seq<(int, int)>
    decreases 1 + to - from
  {
    if to < from then []
    else [(if to - width > from then to - width else from, to)] + Chunks(from, to - width - 1, width)
  }

  lemma {:induction false} ChunksPartition(from: int, to: int, width: nat)
    ensures Partition(Chunks(from, to, width), from, to, width)
    decreases 1 + to - from
  {
    if from <= to {
      var ranges, rest := Chunks(from, to, width), Chunks(from, to - width - 1, width);
      ChunksPartition(from, to - width - 1, width);
      forall k | 1 <= k < |ranges| ensures ranges[k] == rest[k - 1] { }
    }
  }

  method ChunkRanges(from: int, to: int, blocksRange: nat) returns (ranges: seq<(int, int)>)
    ensures ranges == Chunks(from, to, blocksRange)
    ensures Partition(ranges, from, to, blocksRange)
  {
    ranges := [];
    var chunkTo := to;
    while chunkTo >= from
      invariant ranges + Chunks(from, chunkTo, blocksRange) == Chunks(from, to, blocksRange)
      decreases chunkTo - from
    {
      var chunkFrom := if chunkTo - blocksRange > from then chunkTo - blocksRange else from;
      var rest := Chunks(from, chunkTo - blocksRange - 1, blocksRange);
      assert ranges + ([(chunkFrom, chunkTo)] + rest) == (ranges + [(chunkFrom, chunkTo)]) + rest;
      ranges := ranges + [(chunkFrom, chunkTo)];
      chunkTo := chunkTo - blocksRange - 1;
    }
    ChunksPartition(from, to, blocksRange);
  }

  /** Every block of from..to is in exactly one of the ranges, and no other block is in any. */
  lemma EachBlockOnce(ranges: seq<(int, int)>, from: int, to: int, width: int, b: int)
    requires Partition(ranges, from, to, width)
    ensures from <= b <= to <==> exists k :: 0 <= k < |ranges| && ranges[k].0 <= b <= ranges[k].1
    ensures forall j, k :: 0 <= j < k < |ranges| ==> ranges[k].1 < ranges[j].0
  {
    forall j, k | 0 <= j < k < |ranges| ensures ranges[k].1 < ranges[j].0 {
      Descending(ranges, from, to, width, j, k);
    }
    if from <= b <= to {
      var k := 0;
      while b < ranges[k].0
        invariant k < |ranges| && b <= ranges[k].1
      {
        k := k + 1;
      }
    }
    if k :| 0 <= k < |ranges| && ranges[k].0 <= b <= ranges[k].1 {
      if k > 0 { Descending(ranges, from, to, width, 0, k); }
      if k < |ranges| - 1 { Descending(ranges, from, to, width, k, |ranges| - 1); }
    }
  }

  lemma {:induction false} Descending(ranges: seq<(int, int)>, from: int, to: int, width: int, j: nat, k: nat)
    requires Partition(ranges, from, to, width) && j < k < |ranges|
    ensures ranges[k].1 < ranges[j].0
  {
    if j + 1 < k {
      Descending(ranges, from, to, width, j, k - 1);
    }
  }

  /** What is left to search once the first n ranges hold no event. */
  function Remaining(log: seq<Event>, ranges: seq<(int, int)>, from: int, n: nat): Option<Event>
    requires n <= |ranges|
  {
    if n == |ranges| then None else LastIn(log, from, ranges[n].1)
  }

  lemma NextRange(log: seq<Event>, ranges: seq<(int, int)>, from: int, to: int, width: int, n: nat)
    requires Ordered(log) && Partition(ranges, from, to, width) && n < |ranges|
    ensures var events := GetLogs(log, ranges[n].0, ranges[n].1);
      Remaining(log, ranges, from, n)
        == if events != [] then Some(events[|events| - 1]) else Remaining(log, ranges, from, n + 1)
  {
    var (f, t) := ranges[n];
    if n < |ranges| - 1 {
      Descending(ranges, from, to, width, n, |ranges| - 1);
    }
    LastOfLogs(log, f, t);
    LastSplit(log, from, f - 1, t);
    LastInRange(log, from, f - 1);
  }

  /** The width of a chunk: as many blocks as fit into the configured seconds, and at least 1. */
  function BlocksRange(eventsRangeSec: int, secondsPerBlock: int): (width: nat)
    requires secondsPerBlock >= 1
    ensures width >= 1
    ensures eventsRangeSec < 2 * secondsPerBlock ==> width == 1
    ensures eventsRangeSec >= secondsPerBlock ==> width * secondsPerBlock <= eventsRangeSec < (width + 1) * secondsPerBlock
  {
    if eventsRangeSec / secondsPerBlock > 1 then eventsRangeSec / secondsPerBlock else 1
  }

  /** The first chunk of the batch that holds chunk k. */
  function BatchStart(k: nat, concurrency: int): (start: nat)
    requires concurrency >= 1
    ensures start <= k < start + concurrency
  {
    if k < concurrency then 0 else concurrency + BatchStart(k - concurrency, concurrency)
  }

  /** Batches are full: each starts at a multiple of their size. */
  lemma {:induction false} BatchStartSpec(k: nat, concurrency: int) returns (m: nat)
    requires concurrency >= 1
    ensures BatchStart(k, concurrency) == m * concurrency <= k < (m + 1) * concurrency
  {
    m := 0;
    if k >= concurrency {
      var n := BatchStartSpec(k - concurrency, concurrency);
      m := n + 1;
      assert m * concurrency == n * concurrency + concurrency;
    }
  }

  /** The batches follow one another. */
  lemma {:induction false} BatchAt(start: nat, k: nat, concurrency: int)
    requires concurrency >= 1 && BatchStart(start, concurrency) == start
    ensures BatchStart(start + concurrency, concurrency) == start + concurrency
    ensures start <= k < start + concurrency ==> BatchStart(k, concurrency) == start
    ensures start + concurrency <= k ==> BatchStart(k, concurrency) >= start + concurrency
  {
    if concurrency <= start && concurrency <= k {
      BatchAt(start - concurrency, k - concurrency, concurrency);
    }
  }

  ghost predicate NoEvents(log: seq<Event>, ranges: seq<(int, int)>, n: nat) {
    forall j :: 0 <= j < n && j < |ranges| ==> GetLogs(log, ranges[j].0, ranges[j].1) == []
  }

  /** A query that raises is made: all batches before its own are without events. */
  ghost predicate MeetsFailure(node: Provider, ranges: seq<(int, int)>, concurrency: int)
    requires concurrency >= 1
  {
    exists k :: 0 <= k < |ranges| && node.down(ranges[k].0, ranges[k].1) && NoEvents(node.log, ranges, BatchStart(k, concurrency))
  }

  ghost predicate NoneDown(node: Provider, ranges: seq<(int, int)>, n: nat) {
    forall k :: 0 <= k < n && k < |ranges| ==> !node.down(ranges[k].0, ranges[k].1)
  }

  /** A failure in the batch that follows chunks without events. */
  lemma FailureMet(node: Provider, ranges: seq<(int, int)>, concurrency: int, start: nat, k: nat)
    requires concurrency >= 1 && BatchStart(start, concurrency) == start && NoEvents(node.log, ranges, start)
    requires start <= k < start + concurrency && k < |ranges| && node.down(ranges[k].0, ranges[k].1)
    ensures MeetsFailure(node, ranges, concurrency)
  {
    hide BatchStart, NoEvents;
    BatchAt(start, k, concurrency);
  }

  /** No failure up to a batch that holds an event, or up to the end. */
  lemma NoFailureMet(node: Provider, ranges: seq<(int, int)>, concurrency: int, start: nat, n: nat)
    requires concurrency >= 1 && BatchStart(start, concurrency) == start && NoneDown(node, ranges, start + concurrency)
    requires start <= n < start + concurrency && n < |ranges| ==> GetLogs(node.log, ranges[n].0, ranges[n].1) != []
    requires start <= n && (n < start + concurrency || |ranges| <= start + concurrency)
    ensures !MeetsFailure(node, ranges, concurrency)
  {
    hide BatchStart, GetLogs;
    forall k: nat | k < |ranges| && node.down(ranges[k].0, ranges[k].1)
      ensures !NoEvents(node.log, ranges, BatchStart(k, concurrency))
    {
      BatchAt(start, k, concurrency);
    }
  }

  lemma NoneDownMore(node: Provider, ranges: seq<(int, int)>, start: nat, n: nat)
    requires start <= n && NoneDown(node, ranges, start)
    requires forall k :: start <= k < n && k < |ranges| ==> !node.down(ranges[k].0, ranges[k].1)
    ensures NoneDown(node, ranges, n)
  {
  }

  lemma NoEventsMore(log: seq<Event>, ranges: seq<(int, int)>, n: nat)
    requires NoEvents(log, ranges, n)
    ensures n < |ranges| && GetLogs(log, ranges[n].0, ranges[n].1) == [] ==> NoEvents(log, ranges, n + 1)
    ensures n == |ranges| ==> forall m: nat :: NoEvents(log, ranges, m)
  {
  }

  /** get_config_update_event: the last event of the closed range, or the error that ends the scan. */
  method GetLastEvent(node: Provider, from: int, to: int, eventsRangeSec: int, secondsPerBlock: int, concurrency: int)
    returns (result: Result<Option<Event>, ScanError>)
    requires Ordered(node.log) && secondsPerBlock >= 1
    ensures result.Ok? ==> result.value == LastIn(node.log, from, to)
    ensures result == Err(BadBatchSize) <==> concurrency < 1
    ensures result == Err(QueryFailed)
      <==> concurrency >= 1 && MeetsFailure(node, Chunks(from, to, BlocksRange(eventsRangeSec, secondsPerBlock)), concurrency)
  {
    var blocksRange := BlocksRange(eventsRangeSec, secondsPerBlock);
    var ranges := ChunkRanges(from, to, blocksRange);
    if concurrency < 1 {
      return Err(BadBatchSize);
    }
    NothingInEmpty(node.log, ranges, from, to, blocksRange);
    NothingYet(node, ranges, concurrency);
    var start := 0;
    hide Partition, Chunks, BatchStart, GetLogs, LastIn, MeetsFailure, Remaining, Ordered, NoEvents, NoneDown;
    while start < |ranges|
      invariant BatchStart(start, concurrency) == start
      invariant start < |ranges| ==> Remaining(node.log, ranges, from, start) == LastIn(node.log, from, to)
      invariant start >= |ranges| ==> LastIn(node.log, from, to) == None
      invariant NoEvents(node.log, ranges, start)
      invariant NoneDown(node, ranges, start)
    {
      var end := if start + concurrency < |ranges| then start + concurrency else |ranges|;
      var failed := AnyDown(node, ranges, start, end);
      if failed {
        var k: nat :| start <= k < end && node.down(ranges[k].0, ranges[k].1);
        FailureMet(node, ranges, concurrency, start, k);
        return Err(QueryFailed);
      }
      NoneDownMore(node, ranges, start, start + concurrency);
      var n := start;
      while n < end
        invariant start <= n <= end
        invariant Remaining(node.log, ranges, from, n) == LastIn(node.log, from, to)
        invariant NoEvents(node.log, ranges, n)
      {
        var events := GetLogs(node.log, ranges[n].0, ranges[n].1);
        NextRange(node.log, ranges, from, to, blocksRange, n);
        NoEventsMore(node.log, ranges, n);
        if events != [] {
          NoFailureMet(node, ranges, concurrency, start, n);
          return Ok(Some(events[|events| - 1]));
        }
        n := n + 1;
      }
      NothingRemains(node.log, ranges, from);
      NoEventsMore(node.log, ranges, n);
      BatchAt(start, start, concurrency);
      start := start + concurrency;
    }
    NoneDownMore(node, ranges, start, start + concurrency);
    NoFailureMet(node, ranges, concurrency, start, start + concurrency);
    return Ok(None);
  }

  lemma NothingYet(node: Provider, ranges: seq<(int, int)>, concurrency: int)
    requires concurrency >= 1
    ensures BatchStart(0, concurrency) == 0 && NoEvents(node.log, ranges, 0) && NoneDown(node, ranges, 0)
  {
  }

  lemma NothingInEmpty(log: seq<Event>, ranges: seq<(int, int)>, from: int, to: int, width: int)
    requires Partition(ranges, from, to, width)
    ensures if ranges == [] then LastIn(log, from, to) == None else Remaining(log, ranges, from, 0) == LastIn(log, from, to)
  {
    LastInRange(log, from, to);
  }

  lemma NothingRemains(log: seq<Event>, ranges: seq<(int, int)>, from: int)
    ensures Remaining(log, ranges, from, |ranges|) == None
  {
  }

  /** Whether one of the queries of the batch start..end raises. */
  method AnyDown(node: Provider, ranges: seq<(int, int)>, start: nat, end: nat) returns (failed: bool)
    requires start <= end <= |ranges|
    ensures failed <==> exists k :: start <= k < end && node.down(ranges[k].0, ranges[k].1)
  {
    for k := start to end
      invariant forall j :: start <= j < k ==> !node.down(ranges[j].0, ranges[j].1)
    {
      if node.down(ranges[k].0, ranges[k].1) {
        return true;
      }
    }
    return false;
  }
}
