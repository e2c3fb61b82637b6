/** The cache of the oracles' protocol config (src/protocol_config/service.py). */
module ProtocolConfig {
  import opened Wrappers
  import opened EventLog
  import opened Contracts

  /** The settings the lookup depends on; the two blocks are hard-coded for each network. */
  datatype Settings = Settings(
    checkpointBlock: nat,
    eventBlock: nat,
    eventsRangeSec: int,
    secondsPerBlock: int,
    concurrency: int)

  /**
   * What one run meets: the finalized head, the node, IPFS and the contract's threshold, where None is
   * a failed call; builds tells which config data and threshold make a protocol config.
   */
  datatype Env<!C> = Env(
    head: Option<nat>, node: Provider, fetch: string -> Option<C>, threshold: Option<int>, builds: (C, int) -> bool)

  datatype State<C> = State(checkpointBlock: Option<nat>, config: C, rewardsThreshold: int)

  datatype ConfigError = HeadFailed | ScanFailed | NoEvent | FetchFailed | ThresholdFailed | BuildFailed

  class OraclesCache<C> {
    var checkpointBlock: Option<nat>
    var config: C
    var rewardsThreshold: int

    constructor (empty: C)
      ensures Value() == State(None, empty, 0)
    {
      checkpointBlock, config, rewardsThreshold := None, empty, 0;
    }

    ghost function Value(): State<C>
      reads this
    {
      State(checkpointBlock, config, rewardsThreshold)
    }

    /**
     * One run: the cache moves on to the finalized head, also when the config cannot be built from the
     * data then cached; on any earlier failure it stays as it was.
     */
    method GetProtocolConfig(settings: Settings, env: Env<C>) returns (result: Result<(C, int), ConfigError>)
      requires settings.secondsPerBlock >= 1 && Ordered(env.node.log)
      modifies this
      ensures Refresh(settings, env, old(Value()), Value(), result.Ok? || result == Err(BuildFailed))
      ensures result.Ok? ==> result.value == (config, rewardsThreshold) && env.builds(config, rewardsThreshold)
      ensures result == Err(BuildFailed) ==> !env.builds(config, rewardsThreshold)
      ensures Healthy(settings, env) && (old(checkpointBlock).Some? || ShowsEvent(settings, env.node.log, env.head.value)) ==>
        result.Ok? || result == Err(BuildFailed)
      ensures result == Err(NoEvent) ==>
        old(checkpointBlock) == None && env.head.Some? && !ShowsEvent(settings, env.node.log, env.head.value)
    {
      if env.head == None {
        return Err(HeadFailed);
      }
      var toBlock := env.head.value;
      var newConfig;
      if checkpointBlock == None {
        var scan := GetConfigUpdateEventSinceCheckpoint(settings, env.node, toBlock);
        if scan.Err? {
          return Err(ScanFailed);
        }
        if scan.value == None {
          return Err(NoEvent);
        }
        var fetched := env.fetch(scan.value.value.ipfsHash);
        if fetched == None {
          return Err(FetchFailed);
        }
        newConfig := fetched.value;
      } else {
        var fromBlock := checkpointBlock.value + 1;
        var event := None;
        LastInRange(env.node.log, fromBlock, toBlock);
        if fromBlock <= toBlock {
          var scan := GetConfigUpdateEvent(settings, env.node, fromBlock, toBlock);
          if scan.Err? {
            return Err(ScanFailed);
          }
          event := scan.value;
        }
        if event != None {
          var fetched := env.fetch(event.value.ipfsHash);
          if fetched == None {
            return Err(FetchFailed);
          }
          newConfig := fetched.value;
        } else {
          newConfig := config;
        }
      }
      if env.threshold == None {
        return Err(ThresholdFailed);
      }
      checkpointBlock := Some(toBlock);
      config := newConfig;
      rewardsThreshold := env.threshold.value;
      if !env.builds(newConfig, env.threshold.value) {
        return Err(BuildFailed);
      }
      return Ok((newConfig, env.threshold.value));
    }
  }

  method GetConfigUpdateEvent(settings: Settings, node: Provider, from: int, to: int) returns (result: Result<Option<Event>, ScanError>)
    requires settings.secondsPerBlock >= 1 && Ordered(node.log)
    ensures result.Ok? ==> result.value == LastIn(node.log, from, to)
    ensures settings.concurrency >= 1 && (forall f, t :: !node.down(f, t)) ==> result.Ok?
  {
    result := GetLastEvent(node, from, to, settings.eventsRangeSec, settings.secondsPerBlock, settings.concurrency);
    if result.Err? && settings.concurrency >= 1 {
      assert result.error == QueryFailed;
      ghost var ranges := Chunks(from, to, BlocksRange(settings.eventsRangeSec, settings.secondsPerBlock));
      ghost var k :| 0 <= k < |ranges| && node.down(ranges[k].0, ranges[k].1);
      ghost var (f, t) := ranges[k];
      assert node.down(f, t);
    }
  }

  /** The cold lookup: the blocks after the hard-coded checkpoint, then the hard-coded event block. */
  method GetConfigUpdateEventSinceCheckpoint(settings: Settings, node: Provider, toBlock: int)
    returns (result: Result<Option<Event>, ScanError>)
    requires settings.secondsPerBlock >= 1 && Ordered(node.log)
    ensures result.Ok? ==> result.value == ColdEvent(settings, node.log, toBlock)
    ensures result.Ok? ==> (result.value == None <==> !ShowsEvent(settings, node.log, toBlock))
    ensures settings.concurrency >= 1 && (forall f, t :: !node.down(f, t)) ==> result.Ok?
  {
    ColdEventSpec(settings, node.log, toBlock);
    result := GetConfigUpdateEvent(settings, node, settings.checkpointBlock + 1, toBlock);
    if result.Err? || result.value != None {
      return;
    }
    result := GetConfigUpdateEvent(settings, node, settings.eventBlock, settings.eventBlock);
  }

  // ---- what a run does to the cache

  function ColdEvent(settings: Settings, log: seq<Event>, head: int): Option<Event> {
    var event := LastIn(log, settings.checkpointBlock + 1, head);
    if event.Some? then event else LastIn(log, settings.eventBlock, settings.eventBlock)
  }

  /** The log holds an event after the hard-coded checkpoint and not above to, or one at the hard-coded event block. */
  ghost predicate ShowsEvent(settings: Settings, log: seq<Event>, to: int) {
    exists k :: 0 <= k < |log| && (settings.checkpointBlock < log[k].block <= to || log[k].block == settings.eventBlock)
  }

  /** Position k holds the last event of the log in the closed range from..to. */
  ghost predicate LastAt(log: seq<Event>, from: int, to: int, k: int) {
    0 <= k < |log| && from <= log[k].block <= to && forall j :: k < j < |log| ==> !(from <= log[j].block <= to)
  }

  ghost predicate NoneBetween(log: seq<Event>, from: int, to: int) {
    forall k :: 0 <= k < |log| ==> !(from <= log[k].block <= to)
  }

  /**
   * What the cold lookup finds, by positions in the log: nothing only if there is no event to find; the
   * last event after the checkpoint if there is one; otherwise the last at the hard-coded block.
   */
  lemma ColdEventSpec(settings: Settings, log: seq<Event>, to: int)
    ensures var found, from, at := ColdEvent(settings, log, to), settings.checkpointBlock + 1, settings.eventBlock;
      && (found == None <==> !ShowsEvent(settings, log, to))
      && (found.Some? ==> exists k ::
            (LastAt(log, from, to, k) || (NoneBetween(log, from, to) && LastAt(log, at, at, k))) && found == Some(log[k]))
  {
    var from, at := settings.checkpointBlock + 1, settings.eventBlock;
    LastInAt(log, from, to);
    LastInAt(log, at, at);
    hide LastIn;
  }

  lemma LastInAt(log: seq<Event>, from: int, to: int)
    ensures LastIn(log, from, to) == None <==> NoneBetween(log, from, to)
    ensures LastIn(log, from, to).Some? ==> exists k :: LastAt(log, from, to, k) && LastIn(log, from, to) == Some(log[k])
  {
    LastInSpec(log, from, to);
    hide LastIn;
    if LastIn(log, from, to).Some? {
      var e := LastIn(log, from, to).value;
      var k :| 0 <= k < |log| && log[k] == e && forall j :: k < j < |log| ==> !(from <= log[j].block <= to);
      assert LastAt(log, from, to, k);
    }
  }

  datatype Source = NotFound | Cached | From(event: Event)

  /** Where the config of a run with this finalized head comes from. */
  function Sought<C>(settings: Settings, log: seq<Event>, s: State<C>, head: nat): Source {
    match s.checkpointBlock
    case None =>
      (match ColdEvent(settings, log, head) case Some(e) => From(e) case None => NotFound)
    case Some(checkpoint) =>
      (match LastIn(log, checkpoint + 1, head) case Some(e) => From(e) case None => Cached)
  }

  ghost predicate Refresh<C>(settings: Settings, env: Env<C>, s: State<C>, s': State<C>, ok: bool) {
    if !ok then s' == s
    else
      && env.head.Some? && env.threshold.Some?
      && s'.checkpointBlock == env.head
      && s'.rewardsThreshold == env.threshold.value
      && match Sought(settings, env.node.log, s, env.head.value)
         case From(e) => env.fetch(e.ipfsHash) == Some(s'.config)
         case Cached => s'.config == s.config
         case NotFound => false
  }

  ghost predicate Healthy<C>(settings: Settings, env: Env<C>) {
    && env.head.Some? && env.threshold.Some? && settings.concurrency >= 1
    && (forall f, t :: !env.node.down(f, t))
    && (forall hash :: env.fetch(hash).Some?)
  }

  // ---- agreement with a scan of the whole chain

  /** The last event of the chain at or before block b. */
  function LastUpto(chain: seq<Event>, b: int): Option<Event> {
    LastIn(chain, 0, b)
  }

  /** The hard-coded event block holds the last event up to the hard-coded checkpoint. */
  ghost predicate HardCoded(settings: Settings, chain: seq<Event>) {
    && Ordered(chain)
    && settings.eventBlock <= settings.checkpointBlock
    && LastUpto(chain, settings.checkpointBlock).Some?
    && LastUpto(chain, settings.checkpointBlock).value.block == settings.eventBlock
  }

  /**
   * The node's view of the chain: the same events up to the finalized head, anything above it; the
   * hard-coded block is there as on the chain, or not there yet. IPFS serves the content or fails.
   */
  ghost predicate Sees<C>(settings: Settings, chain: seq<Event>, content: string -> C, env: Env<C>) {
    && Ordered(env.node.log)
    && (env.head.Some? ==> Upto(env.node.log, env.head.value) == Upto(chain, env.head.value))
    && LastIn(env.node.log, settings.eventBlock, settings.eventBlock)
         in {None, LastIn(chain, settings.eventBlock, settings.eventBlock)}
    && (forall hash :: env.fetch(hash) in {None, Some(content(hash))})
  }

  lemma SeesRange<C>(settings: Settings, chain: seq<Event>, content: string -> C, env: Env<C>, from: int, to: int)
    requires Sees(settings, chain, content, env) && env.head.Some? && to <= env.head.value
    ensures LastIn(env.node.log, from, to) == LastIn(chain, from, to)
  {
    LastInUpto(env.node.log, from, to, env.head.value);
    LastInUpto(chain, from, to, env.head.value);
  }

  /** Extending a scan upwards from block m to block h. */
  lemma ScanOn(chain: seq<Event>, m: int, h: int)
    requires Ordered(chain) && -1 <= m <= h
    ensures LastUpto(chain, h) == if LastIn(chain, m + 1, h).Some? then LastIn(chain, m + 1, h) else LastUpto(chain, m)
  {
    LastSplit(chain, 0, m, h);
  }

  /** The event at the hard-coded block is the last one at or before any block from there to the checkpoint. */
  lemma HardCodedEvent(settings: Settings, chain: seq<Event>, b: int)
    requires HardCoded(settings, chain) && settings.eventBlock <= b <= settings.checkpointBlock
    ensures LastIn(chain, settings.eventBlock, settings.eventBlock) == LastUpto(chain, b)
    ensures LastUpto(chain, b) == LastUpto(chain, settings.checkpointBlock)
  {
    var e: int, cp: int := settings.eventBlock, settings.checkpointBlock;
    ScanOn(chain, e, cp);
    LastInRange(chain, e + 1, cp);
    ScanOn(chain, b, cp);
    LastInRange(chain, b + 1, cp);
    ScanOn(chain, e - 1, e);
    LastInRange(chain, 0, e - 1);
  }

  /** The block up to which the config of a cold run is the last one: the head, or the hard-coded event block. */
  lemma ColdEventIsLast<C>(settings: Settings, chain: seq<Event>, content: string -> C, env: Env<C>)
    requires HardCoded(settings, chain) && Sees(settings, chain, content, env) && env.head.Some?
    ensures var h, e, found := env.head.value, settings.eventBlock, ColdEvent(settings, env.node.log, env.head.value);
      && (found.Some? ==> found == LastUpto(chain, if h >= e then h else e))
      && (h >= e ==> found.Some?)
  {
    var h, e, cp := env.head.value, settings.eventBlock, settings.checkpointBlock;
    SeesRange(settings, chain, content, env, cp + 1, h);
    LastInRange(chain, cp + 1, h);
    HardCodedEvent(settings, chain, e);
    if h >= e {
      SeesRange(settings, chain, content, env, e, e);
    }
    if h > cp {
      ScanOn(chain, cp, h);
    } else if h >= e {
      HardCodedEvent(settings, chain, h);
    }
  }

  /**
   * A cold run finds the last event at or before the finalized head exactly when the head has reached
   * the hard-coded event block; below it the run finds a later event, or none.
   */
  lemma ColdRunExact<C>(settings: Settings, chain: seq<Event>, content: string -> C, env: Env<C>)
    requires HardCoded(settings, chain) && Sees(settings, chain, content, env) && env.head.Some?
    ensures var found := ColdEvent(settings, env.node.log, env.head.value);
      found.Some? && found == LastUpto(chain, env.head.value) <==> env.head.value >= settings.eventBlock
  {
    ColdEventIsLast(settings, chain, content, env);
    HardCodedEvent(settings, chain, settings.eventBlock);
    LastInRange(chain, 0, env.head.value);
  }

  /** From there on the node shows an event to a cold run. */
  lemma ColdRunFinds<C>(settings: Settings, chain: seq<Event>, content: string -> C, env: Env<C>)
    requires HardCoded(settings, chain) && Sees(settings, chain, content, env)
    requires env.head.Some? && env.head.value >= settings.eventBlock
    ensures ShowsEvent(settings, env.node.log, env.head.value)
  {
    ColdEventIsLast(settings, chain, content, env);
    ColdEventSpec(settings, env.node.log, env.head.value);
  }

  /** The cached config is that of the last event at or before block m, and m is not behind the checkpoint. */
  ghost predicate CachedUpto<C>(chain: seq<Event>, content: string -> C, s: State<C>, m: int) {
    && s.checkpointBlock.Some? && s.checkpointBlock.value <= m
    && LastUpto(chain, m).Some?
    && s.config == content(LastUpto(chain, m).value.ipfsHash)
  }

  /** How far the config reaches after a successful run. */
  function Reach<C>(settings: Settings, log: seq<Event>, s: State<C>, m: int, head: nat): int {
    if s.checkpointBlock == None then (if head >= settings.eventBlock then head else settings.eventBlock)
    else if LastIn(log, s.checkpointBlock.value + 1, head).Some? || m <= head then head
    else m
  }

  lemma RefreshStep<C>(settings: Settings, chain: seq<Event>, content: string -> C, env: Env<C>, s: State<C>, s': State<C>, m: int)
    requires HardCoded(settings, chain) && Sees(settings, chain, content, env)
    requires Refresh(settings, env, s, s', true)
    requires s.checkpointBlock.Some? ==> CachedUpto(chain, content, s, m)
    ensures CachedUpto(chain, content, s', Reach(settings, env.node.log, s, m, env.head.value))
  {
    var h, log := env.head.value, env.node.log;
    match s.checkpointBlock {
      case None =>
        ColdEventIsLast(settings, chain, content, env);
        assert env.fetch(ColdEvent(settings, log, h).value.ipfsHash) in {None, Some(content(ColdEvent(settings, log, h).value.ipfsHash))};
      case Some(checkpoint) =>
        SeesRange(settings, chain, content, env, checkpoint + 1, h);
        LastInRange(chain, checkpoint + 1, h);
        var found := LastIn(chain, checkpoint + 1, h);
        if found.Some? {
          ScanOn(chain, checkpoint, h);
          assert env.fetch(found.value.ipfsHash) in {None, Some(content(found.value.ipfsHash))};
        } else if m <= h {
          LastSplit(chain, checkpoint + 1, m, h);
          ScanOn(chain, m, h);
        }
    }
  }

  /** A run of the keeper: the cache before and after each call, from an empty cache. */
  ghost predicate Run<C>(settings: Settings, chain: seq<Event>, content: string -> C, states: seq<State<C>>, envs: seq<Env<C>>, oks: seq<bool>) {
    && |states| == |envs| + 1 && |oks| == |envs|
    && states[0].checkpointBlock == None
    && forall k :: 0 <= k < |envs| ==>
         Sees(settings, chain, content, envs[k]) && Refresh(settings, envs[k], states[k], states[k + 1], oks[k])
  }

  lemma RunPrefix<C>(settings: Settings, chain: seq<Event>, content: string -> C, states: seq<State<C>>, envs: seq<Env<C>>, oks: seq<bool>)
    requires Run(settings, chain, content, states, envs, oks) && envs != []
    ensures var n := |envs| - 1; Run(settings, chain, content, states[..n + 1], envs[..n], oks[..n])
  {
    var n := |envs| - 1;
    forall k | 0 <= k < n
      ensures Sees(settings, chain, content, envs[..n][k])
      ensures Refresh(settings, envs[..n][k], states[..n + 1][k], states[..n + 1][k + 1], oks[..n][k])
    {
      assert envs[..n][k] == envs[k];
    }
  }

  /** A block no higher than the highest finalized head of a successful run, or the hard-coded event block. */
  ghost predicate Seen<C>(settings: Settings, envs: seq<Env<C>>, oks: seq<bool>, m: int)
    requires |oks| == |envs|
  {
    m <= settings.eventBlock || exists k :: 0 <= k < |envs| && oks[k] && envs[k].head.Some? && m <= envs[k].head.value
  }

  /**
   * No event is ever skipped, even when the reported head moves backwards: some block not behind the
   * checkpoint and not ahead of what was seen has the cached config as its last one.
   */
  lemma {:induction false} NoEventSkipped<C>(settings: Settings, chain: seq<Event>, content: string -> C, states: seq<State<C>>, envs: seq<Env<C>>, oks: seq<bool>)
    returns (m: int)
    requires HardCoded(settings, chain) && Run(settings, chain, content, states, envs, oks)
    ensures states[|envs|].checkpointBlock.Some? ==>
      CachedUpto(chain, content, states[|envs|], m) && Seen(settings, envs, oks, m)
    decreases |envs|
  {
    m := 0;
    if envs != [] {
      var n := |envs| - 1;
      RunPrefix(settings, chain, content, states, envs, oks);
      var before := NoEventSkipped(settings, chain, content, states[..n + 1], envs[..n], oks[..n]);
      m := before;
      if oks[n] {
        RefreshStep(settings, chain, content, envs[n], states[n], states[n + 1], before);
        m := Reach(settings, envs[n].node.log, states[n], before, envs[n].head.value);
      }
      if k :| 0 <= k < n && oks[..n][k] && envs[..n][k].head.Some? && before <= envs[..n][k].head.value {
        assert oks[k] && envs[k].head.Some? && before <= envs[k].head.value;
      }
    }
  }

  /** The finalized head never moves backwards from one successful run to a later one. */
  ghost predicate HeadsAdvance<C>(envs: seq<Env<C>>, oks: seq<bool>)
    requires |oks| == |envs|
  {
    forall j, k :: 0 <= j < k < |envs| && oks[j] && oks[k] && envs[j].head.Some? && envs[k].head.Some? ==>
      envs[j].head.value <= envs[k].head.value
  }

  /** The checkpoint is the head of an earlier successful run. */
  lemma {:induction false} CheckpointIsHead<C>(settings: Settings, chain: seq<Event>, content: string -> C, states: seq<State<C>>, envs: seq<Env<C>>, oks: seq<bool>)
    requires Run(settings, chain, content, states, envs, oks)
    ensures states[|envs|].checkpointBlock.Some? ==>
      exists k :: 0 <= k < |envs| && oks[k] && envs[k].head == states[|envs|].checkpointBlock
    decreases |envs|
  {
    if envs != [] {
      var n := |envs| - 1;
      RunPrefix(settings, chain, content, states, envs, oks);
      CheckpointIsHead(settings, chain, content, states[..n + 1], envs[..n], oks[..n]);
      assert oks[n] ==> envs[n].head == states[n + 1].checkpointBlock;
      if !oks[n] && states[n].checkpointBlock.Some? {
        var k :| 0 <= k < n && oks[..n][k] && envs[..n][k].head == states[n].checkpointBlock;
        assert oks[k] && envs[k].head == states[n + 1].checkpointBlock;
      }
    }
  }

  /**
   * With a finalized head that only advances, the config reaches exactly the checkpoint, or the
   * hard-coded event block while the checkpoint is still below it.
   */
  lemma {:induction false} AgreesWithFullScan<C>(settings: Settings, chain: seq<Event>, content: string -> C, states: seq<State<C>>, envs: seq<Env<C>>, oks: seq<bool>)
    requires HardCoded(settings, chain) && Run(settings, chain, content, states, envs, oks) && HeadsAdvance(envs, oks)
    requires states[|envs|].checkpointBlock.Some?
    ensures var s := states[|envs|];
      var c := s.checkpointBlock.value;
      CachedUpto(chain, content, s, c) || (c < settings.eventBlock && CachedUpto(chain, content, s, settings.eventBlock))
    ensures states[|envs|].checkpointBlock.value >= settings.eventBlock ==>
      CachedUpto(chain, content, states[|envs|], states[|envs|].checkpointBlock.value)
    decreases |envs|
  {
    if envs != [] {
      var n := |envs| - 1;
      var s := states[n];
      RunPrefix(settings, chain, content, states, envs, oks);
      assert HeadsAdvance(envs[..n], oks[..n]) by {
        forall j, k | 0 <= j < k < n && oks[..n][j] && oks[..n][k] && envs[..n][j].head.Some? && envs[..n][k].head.Some?
          ensures envs[..n][j].head.value <= envs[..n][k].head.value
        {
          assert oks[j] && oks[k];
        }
      }
      if s.checkpointBlock.Some? {
        AgreesWithFullScan(settings, chain, content, states[..n + 1], envs[..n], oks[..n]);
        CheckpointIsHead(settings, chain, content, states[..n + 1], envs[..n], oks[..n]);
        var k :| 0 <= k < n && oks[..n][k] && envs[..n][k].head == s.checkpointBlock;
        assert oks[k] && envs[k].head == s.checkpointBlock;
      }
      if oks[n] {
        var c := if s.checkpointBlock.Some? then s.checkpointBlock.value else 0;
        var m := if s.checkpointBlock.Some? && !CachedUpto(chain, content, s, c) then settings.eventBlock else c;
        RefreshStep(settings, chain, content, envs[n], s, states[n + 1], m);
      }
    }
  }

  /** A first run below the hard-coded event block caches a config from a block after its checkpoint. */
  lemma LaggingNodeSeesTheFuture()
    ensures var settings := Settings(100, 90, 43200, 12, 10);
      var chain := [Event(10, "old"), Event(90, "new")];
      var env := Env(Some(50), Provider(chain, (f, t) => false), hash => Some(hash), Some(1), (config, threshold) => true);
      && HardCoded(settings, chain) && Sees(settings, chain, hash => hash, env)
      && Refresh(settings, env, State(None, "", 0), State(Some(50), "new", 1), true)
      && LastUpto(chain, 50) == Some(Event(10, "old"))
  {
    var chain := [Event(10, "old"), Event(90, "new")];
    assert chain[..1] == [Event(10, "old")] && chain[..1][..0] == [];
    assert LastIn(chain, 101, 50) == None && LastIn(chain, 90, 90) == Some(Event(90, "new"));
  }
}
