/** The indexer, one sync at a time: fetch a range, drop what is stored, persist, notify, move
    the checkpoint. Overlapping syncs are the subject of IndexerInterleaving. */
module Indexer {
  import opened Wrappers
  import opened EventChain

  // ---------------------------------------------------------------------------
  // Specification
  // ---------------------------------------------------------------------------

  datatype Checkpoint = Checkpoint(blockNumber: int, blockHash: string)

  /** One call of one registered handler. */
  datatype Delivery = Delivery(handler: nat, event: Event)

  datatype State = State(events: seq<Event>, checkpoint: Option<Checkpoint>, deliveries: seq<Delivery>)

  const EMPTY: State := State([], None, [])

  function ToEveryHandler(handlers: nat, e: Event): seq<Delivery> {
    seq(handlers, (h: nat) => Delivery(h, e))
  }

  /** Each event in turn, to each handler in turn. */
  function DeliveriesOf(handlers: nat, events: seq<Event>): seq<Delivery> {
    if events == [] then []
    else DeliveriesOf(handlers, events[..|events| - 1]) + ToEveryHandler(handlers, events[|events| - 1])
  }

  function LastBlockNumber(checkpoint: Option<Checkpoint>): int {
    if checkpoint.Some? then checkpoint.value.blockNumber else 0
  }

  /** The state after syncing an inclusive block range, when no handler throws. */
  function Sync(cfg: Config, chain: Chain, s: State, from: int, upTo: int): State {
    var logs := Fetch(cfg, chain, from, upTo);
    if logs == [] then s.(checkpoint := Some(Checkpoint(upTo, "")))
    else
      var added := NewEvents(cfg, logs, KeysOf(s.events));
      var last := logs[|logs| - 1];
      State(s.events + added, Some(Checkpoint(last.blockNumber, last.blockHash)),
            s.deliveries + DeliveriesOf(cfg.handlers, added))
  }

  /** Which of the handler calls of one sync throw, by their position. */
  type Throws = nat -> bool

  /** One of the first `n` calls throws. */
  predicate Threw(throws: Throws, n: nat) {
    n > 0 && (Threw(throws, n - 1) || throws(n - 1))
  }

  /** How many of `n` calls are made: a call is made when no call before it threw. */
  function CallsMade(throws: Throws, n: nat): (k: nat)
    ensures k <= n
  {
    if n > 0 && Threw(throws, n - 1) then CallsMade(throws, n - 1) else n
  }

  /** The first call that throws is the last one made. */
  lemma {:induction false} FirstThrowIsLast(throws: Throws, k: nat, n: nat)
    requires k < n && !Threw(throws, k) && throws(k)
    ensures Threw(throws, n) && CallsMade(throws, n) == k + 1
    decreases n
  {
    if k + 1 < n {
      FirstThrowIsLast(throws, k, n - 1);
    }
  }

  lemma {:induction false} NoThrowMakesAll(throws: Throws, n: nat)
    ensures !Threw(throws, n) ==> CallsMade(throws, n) == n
  {
  }

  lemma NoEventsNoCalls(handlers: nat)
    ensures DeliveriesOf(handlers, []) == []
  {
  }

  const NEVER: Throws := (k: nat) => false

  lemma {:induction false} NeverThrew(n: nat)
    ensures !Threw(NEVER, n)
  {
    if n > 0 {
      NeverThrew(n - 1);
    }
  }

  datatype Outcome = Outcome(state: State, completed: bool)

  /** A sync whose handlers may throw. The events are stored by then; the rest of the calls are
      not made, and the checkpoint stays. */
  function SyncOutcome(cfg: Config, chain: Chain, s: State, from: int, upTo: int, throws: Throws): Outcome {
    var calls := CallsOf(cfg, chain, s, from, upTo);
    var all := Sync(cfg, chain, s, from, upTo);
    if Threw(throws, |calls|)
    then Outcome(State(all.events, s.checkpoint, s.deliveries + calls[..CallsMade(throws, |calls|)]), false)
    else Outcome(all, true)
  }

  /** The handler calls that a sync sets out to make. */
  function CallsOf(cfg: Config, chain: Chain, s: State, from: int, upTo: int): seq<Delivery> {
    DeliveriesOf(cfg.handlers, NewEvents(cfg, Fetch(cfg, chain, from, upTo), KeysOf(s.events)))
  }

  lemma {:induction false} DeliveriesAppend(handlers: nat, a: seq<Event>, b: seq<Event>)
    ensures DeliveriesOf(handlers, a + b) == DeliveriesOf(handlers, a) + DeliveriesOf(handlers, b)
  {
    if b == [] {
      assert a + b == a;
    } else {
      assert (a + b)[..|a + b| - 1] == a + b[..|b| - 1];
      DeliveriesAppend(handlers, a, b[..|b| - 1]);
    }
  }

  /** The block at which the reorg check stops, walking down from `depth` below the checkpoint. */
  function ReorgBlock(chain: Chain, cp: Checkpoint, maxDepth: int, depth: nat): (r: Option<nat>)
    ensures r.Some? ==> r.value <= cp.blockNumber - depth && r.value < |chain|
    decreases maxDepth - depth
  {
    var blockNumber := cp.blockNumber - depth;
    if depth >= maxDepth || blockNumber < 0 then None
    else if blockNumber < |chain| && chain[blockNumber].hash != cp.blockHash then Some(blockNumber)
    else ReorgBlock(chain, cp, maxDepth, depth + 1)
  }

  /** The range that a new block makes the indexer sync, if any. */
  function LiveRange(cfg: Config, chain: Chain, checkpoint: Option<Checkpoint>, blockNumber: nat): Option<(int, nat)> {
    var reorg := if checkpoint.Some? then ReorgBlock(chain, checkpoint.value, cfg.maxReorgDepth, 0) else None;
    if reorg.Some? then Some((reorg.value, blockNumber))
    else
      var from := LastBlockNumber(checkpoint) + 1;
      if from <= blockNumber then Some((from, blockNumber)) else None
  }

  function OnBlock(cfg: Config, chain: Chain, s: State, blockNumber: nat, throws: Throws): Outcome {
    var range := LiveRange(cfg, chain, s.checkpoint, blockNumber);
    if range.None? then Outcome(s, true)
    else SyncOutcome(cfg, chain, s, range.value.0, range.value.1, throws)
  }

  const BATCH_SIZE := 1000

  function BatchEnd(from: int, safeLatest: int): int {
    if from + BATCH_SIZE - 1 < safeLatest then from + BATCH_SIZE - 1 else safeLatest
  }

  /** The batches of a historical sync, starting at `from`. */
  function Batches(from: int, safeLatest: int): seq<(int, int)>
    decreases safeLatest - from
  {
    if from >= safeLatest then []
    else [(from, BatchEnd(from, safeLatest))] + Batches(from + BATCH_SIZE, safeLatest)
  }

  /** What decides a historical sync from outside: per batch, whether the indexer is still
      running when it begins, and which of its handler calls throw. */
  datatype Weather = Weather(running: nat -> bool, throws: nat -> Throws)

  const CALM: Weather := Weather((k: nat) => true, (k: nat) => NEVER)

  /** Batch after batch, until the indexer is found stopped or a handler throws. */
  function SyncBatches(cfg: Config, chain: Chain, s: State, batches: seq<(int, int)>, weather: Weather, k: nat): Outcome
    decreases |batches|
  {
    if batches == [] || !weather.running(k) then Outcome(s, true)
    else
      var o := SyncOutcome(cfg, chain, s, batches[0].0, batches[0].1, weather.throws(k));
      if o.completed then SyncBatches(cfg, chain, o.state, batches[1..], weather, k + 1) else o
  }

  lemma OneBatch(cfg: Config, chain: Chain, s: State, from: int, safeLatest: int, weather: Weather, k: nat, o: Outcome)
    requires from < safeLatest && weather.running(k)
    requires o == SyncOutcome(cfg, chain, s, from, BatchEnd(from, safeLatest), weather.throws(k))
    ensures SyncBatches(cfg, chain, s, Batches(from, safeLatest), weather, k) ==
            if o.completed then SyncBatches(cfg, chain, o.state, Batches(from + BATCH_SIZE, safeLatest), weather, k + 1)
            else o
  {
    assert Batches(from, safeLatest)[1..] == Batches(from + BATCH_SIZE, safeLatest);
  }

  function HistoricalStart(cfg: Config, checkpoint: Option<Checkpoint>): int {
    if LastBlockNumber(checkpoint) != 0 then LastBlockNumber(checkpoint) else cfg.startBlock
  }

  // ---------------------------------------------------------------------------
  // The indexer object
  // ---------------------------------------------------------------------------

  /** Storage, checkpoint manager, pipeline and indexer, with the checkpoint that memory and
      storage always hold alike. `chain` stands for what the provider answers. */
  class Node {
    const cfg: Config
    var events: seq<Event>
    var checkpoint: Option<Checkpoint>
    var deliveries: seq<Delivery>

    function Now(): State
      reads this
    {
      State(events, checkpoint, deliveries)
    }

    constructor (cfg: Config)
      ensures this.cfg == cfg && Now() == EMPTY
    {
      this.cfg := cfg;
      events, checkpoint, deliveries := [], None, [];
    }

    method FetchLogs(chain: Chain, fromBlock: int, toBlock: int) returns (logs: seq<Log>)
      ensures logs == Fetch(cfg, chain, fromBlock, toBlock)
    {
      logs := [];
      for c := 0 to |cfg.contracts|
        invariant logs == FetchUpTo(cfg, chain, fromBlock, toBlock, c)
      {
        logs := logs + GetLogs(chain, cfg.contracts[c].address, fromBlock, toBlock);
      }
    }

    method GetDuplicateEvents() returns (seen: set<Key>)
      ensures seen == KeysOf(events)
    {
      seen := {};
      for i := 0 to |events|
        invariant seen == KeysOf(events[..i])
      {
        assert forall e :: e in events[..i + 1] <==> e in events[..i] || e == events[i];
        seen := seen + {EventKey(events[i])};
      }
      assert events[..|events|] == events;
    }

    method ProcessLogs(logs: seq<Log>) returns (added: seq<Event>)
      ensures added == NewEvents(cfg, logs, KeysOf(events))
    {
      var duplicates := GetDuplicateEvents();
      added := [];
      for i := 0 to |logs|
        invariant added == NewEvents(cfg, logs[..i], duplicates)
      {
        assert logs[..i + 1][..i] == logs[..i];
        if KeyOf(logs[i]) in duplicates {
          continue;
        }
        var contract := FindContract(cfg.contracts, logs[i].address);
        if contract.None? {
          continue;
        }
        var parsed := cfg.decode(contract.value.abi, logs[i]);
        if parsed.None? {
          continue;
        }
        added := added + [Event(cfg.chainId, logs[i].blockNumber, logs[i].blockHash, logs[i].txHash, logs[i].index,
                                contract.value.name, logs[i].address, parsed.value.name, parsed.value.args)];
      }
      assert logs[..|logs|] == logs;
    }

    /** Calls the handlers until one throws; `calls` only tells the calls apart. */
    method RunHandlers(batch: seq<Event>, throws: Throws) returns (ok: bool)
      modifies this`deliveries
      ensures var all := DeliveriesOf(cfg.handlers, batch);
              && ok == !Threw(throws, |all|)
              && deliveries == old(deliveries) + all[..CallsMade(throws, |all|)]
    {
      hide CallsMade, DeliveriesOf;
      NoEventsNoCalls(cfg.handlers);
      var calls := 0;
      for i := 0 to |batch|
        invariant calls == |DeliveriesOf(cfg.handlers, batch[..i])| && !Threw(throws, calls)
        invariant deliveries == old(deliveries) + DeliveriesOf(cfg.handlers, batch[..i])
      {
        OneMoreEvent(cfg.handlers, batch, i);
        ghost var before := deliveries;
        for h := 0 to cfg.handlers
          invariant calls == |DeliveriesOf(cfg.handlers, batch[..i])| + h && !Threw(throws, calls)
          invariant deliveries == before + ToEveryHandler(h, batch[i])
        {
          deliveries := deliveries + [Delivery(h, batch[i])];
          if throws(calls) {
            ThrownIn(cfg.handlers, batch, i, h, throws);
            return false;
          }
          calls := calls + 1;
        }
      }
      assert batch[..|batch|] == batch;
      NoThrowMakesAll(throws, calls);
      return true;
    }

    method SyncBlocks(chain: Chain, fromBlock: int, toBlock: int, throws: Throws) returns (ok: bool)
      modifies this
      ensures Outcome(Now(), ok) == SyncOutcome(cfg, chain, old(Now()), fromBlock, toBlock, throws)
    {
      var logs := FetchLogs(chain, fromBlock, toBlock);
      if |logs| == 0 {
        checkpoint := Some(Checkpoint(toBlock, ""));
        return true;
      }
      var batch := ProcessLogs(logs);
      if |batch| != 0 {
        events := events + batch;
      }
      ok := RunHandlers(batch, throws);
      if !ok {
        return;
      }
      var lastLog := logs[|logs| - 1];
      checkpoint := Some(Checkpoint(lastLog.blockNumber, lastLog.blockHash));
    }

    method DetectReorg(chain: Chain, cp: Checkpoint, maxDepth: int) returns (r: Option<nat>)
      ensures r == ReorgBlock(chain, cp, maxDepth, 0)
    {
      var depth := 0;
      while depth < maxDepth
        invariant depth >= 0
        invariant ReorgBlock(chain, cp, maxDepth, depth) == ReorgBlock(chain, cp, maxDepth, 0)
      {
        var blockNumber := cp.blockNumber - depth;
        if blockNumber < 0 {
          break;
        }
        if blockNumber < |chain| && chain[blockNumber].hash != cp.blockHash {
          return Some(blockNumber);
        }
        depth := depth + 1;
      }
      return None;
    }

    method OnNewBlock(chain: Chain, blockNumber: nat, throws: Throws) returns (ok: bool)
      modifies this
      ensures Outcome(Now(), ok) == OnBlock(cfg, chain, old(Now()), blockNumber, throws)
    {
      ghost var s := Now();
      ghost var range := LiveRange(cfg, chain, checkpoint, blockNumber);
      if checkpoint.Some? {
        var reorgBlock := DetectReorg(chain, checkpoint.value, cfg.maxReorgDepth);
        if reorgBlock.Some? {
          assert range == Some((reorgBlock.value, blockNumber));
          ok := SyncBlocks(chain, reorgBlock.value, blockNumber, throws);
          assert Outcome(Now(), ok) == SyncOutcome(cfg, chain, s, reorgBlock.value, blockNumber, throws);
          return;
        }
      }
      ok := true;
      var fromBlock := LastBlockNumber(checkpoint) + 1;
      if fromBlock <= blockNumber {
        assert range == Some((fromBlock, blockNumber));
        ok := SyncBlocks(chain, fromBlock, blockNumber, throws);
      }
    }

    method SyncHistorical(chain: Chain, safeLatest: int, weather: Weather) returns (ok: bool)
      modifies this
      ensures Outcome(Now(), ok) ==
              SyncBatches(cfg, chain, old(Now()), Batches(HistoricalStart(cfg, old(checkpoint)), safeLatest),
                          weather, 0)
    {
      hide SyncOutcome;
      var startBlock := HistoricalStart(cfg, checkpoint);
      ghost var goal := SyncBatches(cfg, chain, Now(), Batches(startBlock, safeLatest), weather, 0);
      if startBlock >= safeLatest {
        return true;
      }
      var from, k := startBlock, 0;
      while from < safeLatest
        invariant k >= 0
        invariant SyncBatches(cfg, chain, Now(), Batches(from, safeLatest), weather, k) == goal
        decreases safeLatest - from
      {
        ghost var s := Now();
        if !weather.running(k) {
          break;
        }
        var upTo := if from + BATCH_SIZE - 1 < safeLatest then from + BATCH_SIZE - 1 else safeLatest;
        ok := SyncBlocks(chain, from, upTo, weather.throws(k));
        OneBatch(cfg, chain, s, from, safeLatest, weather, k, Outcome(Now(), ok));
        if !ok {
          return;
        }
        from, k := from + BATCH_SIZE, k + 1;
      }
      return true;
    }
  }

  lemma OneMoreEvent(handlers: nat, batch: seq<Event>, i: nat)
    requires i < |batch|
    ensures DeliveriesOf(handlers, batch[..i + 1]) ==
            DeliveriesOf(handlers, batch[..i]) + ToEveryHandler(handlers, batch[i])
  {
    assert batch[..i + 1][..i] == batch[..i];
  }

  /** The calls for the first `i` events and, of the next one, to `h` handlers are the first calls
      of the batch. */
  lemma PartOfRound(handlers: nat, batch: seq<Event>, i: nat, h: nat)
    requires i < |batch| && h <= handlers
    ensures var all, done := DeliveriesOf(handlers, batch), DeliveriesOf(handlers, batch[..i]);
            && |done| + h <= |all|
            && all[..|done| + h] == done + ToEveryHandler(h, batch[i])
  {
    OneMoreEvent(handlers, batch, i);
    assert batch == batch[..i + 1] + batch[i + 1..];
    DeliveriesAppend(handlers, batch[..i + 1], batch[i + 1..]);
  }

  /** When the call of handler `h` for event `i` is the first to throw, the calls made are those up to it. */
  lemma ThrownIn(handlers: nat, batch: seq<Event>, i: nat, h: nat, throws: Throws)
    requires i < |batch| && h < handlers
    requires var calls := |DeliveriesOf(handlers, batch[..i])| + h; !Threw(throws, calls) && throws(calls)
    ensures var all := DeliveriesOf(handlers, batch);
            && Threw(throws, |all|)
            && all[..CallsMade(throws, |all|)] == DeliveriesOf(handlers, batch[..i]) + ToEveryHandler(h + 1, batch[i])
  {
    PartOfRound(handlers, batch, i, h + 1);
    FirstThrowIsLast(throws, |DeliveriesOf(handlers, batch[..i])| + h, |DeliveriesOf(handlers, batch)|);
  }
}
