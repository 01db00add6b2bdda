/** The indexer with overlapping syncs. New blocks arrive from the socket and from the poll
    timer, and every `await` lets another sync run. Each step below is what one task does
    between two awaits, so a run is one interleaving. */
module IndexerInterleaving {
  import opened Wrappers
  import opened EventChain
  import opened Indexer
  import opened IndexerLaws

  // ---------------------------------------------------------------------------
  // Tasks and steps
  // ---------------------------------------------------------------------------

  /** What follows a finished range: nothing, or the next batch of a historical sync. */
  datatype Follow = Stop | NextBatch(next: int, safeLatest: int)

  datatype Phase =
    | Locating(start: int)                                                     // a historical sync, asking for the head
    | Checking(cp: Checkpoint, depth: nat, blockNumber: nat)                   // in the reorg check
    | Fetching(from: int, upTo: int, queried: nat, logs: seq<Log>)             // some contracts queried
    | Fetched(from: int, upTo: int, logs: seq<Log>)                            // about to read the stored keys
    | Deduped(from: int, upTo: int, logs: seq<Log>, dups: set<Key>)            // about to persist
    | Notifying(upTo: int, last: Log, pending: seq<Delivery>)                  // running handlers
    | Done(upTo: int)
    | Skipped                                                                  // there was nothing to sync
    | Failed(lost: seq<Delivery>)                                              // threw, or was stopped

  datatype Task = Task(phase: Phase, follow: Follow)

  datatype World = World(
    chain: Chain, events: seq<Event>, checkpoint: Option<Checkpoint>, deliveries: seq<Delivery>, tasks: seq<Task>)

  datatype Action =
    | AppendBlock(block: Block)
    | StartLive(blockNumber: nat)
    | StartHistorical
    | Locate(task: nat, safeLatest: int)
    | Advance(task: nat)
    | Fail(task: nat)

  function Begin(from: int, upTo: int, follow: Follow): Task {
    Task(Fetching(from, upTo, 0, []), follow)
  }

  function BeginBatch(from: int, safeLatest: int): Task {
    Begin(from, BatchEnd(from, safeLatest), NextBatch(from + BATCH_SIZE, safeLatest))
  }

  /** A historical sync begins where the checkpoint was before the head was known. */
  function BeginHistorical(start: int, safeLatest: int): Task {
    if start >= safeLatest then Task(Skipped, Stop) else BeginBatch(start, safeLatest)
  }

  function Finish(follow: Follow, upTo: int): Task {
    match follow
    case Stop => Task(Done(upTo), Stop)
    case NextBatch(next, safeLatest) =>
      if next < safeLatest then BeginBatch(next, safeLatest) else Task(Done(upTo), Stop)
  }

  /** Past the reorg check the checkpoint is read again, as it is by then. */
  function BeginAbove(checkpoint: Option<Checkpoint>, blockNumber: nat): Task {
    var from := LastBlockNumber(checkpoint) + 1;
    if from <= blockNumber then Begin(from, blockNumber, Stop) else Task(Skipped, Stop)
  }

  function NewTask(w: World, t: Task): World {
    w.(tasks := w.tasks + [t])
  }

  function AdvanceTask(cfg: Config, w: World, i: nat): World
    requires i < |w.tasks|
  {
    var follow := w.tasks[i].follow;
    match w.tasks[i].phase
    case Checking(cp, depth, blockNumber) =>
      var b := cp.blockNumber - depth;
      if depth >= cfg.maxReorgDepth || b < 0 then w.(tasks := w.tasks[i := BeginAbove(w.checkpoint, blockNumber)])
      else if b < |w.chain| && w.chain[b].hash != cp.blockHash then
        w.(tasks := w.tasks[i := Begin(b, blockNumber, Stop)])
      else w.(tasks := w.tasks[i := Task(Checking(cp, depth + 1, blockNumber), Stop)])
    case Fetching(from, upTo, queried, logs) =>
      if queried < |cfg.contracts| then
        var more := GetLogs(w.chain, cfg.contracts[queried].address, from, upTo);
        w.(tasks := w.tasks[i := Task(Fetching(from, upTo, queried + 1, logs + more), follow)])
      else if logs == [] then
        w.(checkpoint := Some(Checkpoint(upTo, "")), tasks := w.tasks[i := Finish(follow, upTo)])
      else
        w.(tasks := w.tasks[i := Task(Fetched(from, upTo, logs), follow)])
    case Fetched(from, upTo, logs) =>
      w.(tasks := w.tasks[i := Task(Deduped(from, upTo, logs, KeysOf(w.events)), follow)])
    case Deduped(from, upTo, logs, dups) =>
      if logs == [] then w
      else
        var added := NewEvents(cfg, logs, dups);
        w.(events := w.events + added,
           tasks := w.tasks[i := Task(Notifying(upTo, logs[|logs| - 1], DeliveriesOf(cfg.handlers, added)), follow)])
    case Notifying(upTo, last, pending) =>
      if pending != [] then
        w.(deliveries := w.deliveries + [pending[0]],
           tasks := w.tasks[i := Task(Notifying(upTo, last, pending[1..]), follow)])
      else
        w.(checkpoint := Some(Checkpoint(last.blockNumber, last.blockHash)),
           tasks := w.tasks[i := Finish(follow, upTo)])
    case _ => w
  }

  /** The handler calls that a task still has to make. */
  function PendingOf(t: Task): seq<Delivery> {
    if t.phase.Notifying? then t.phase.pending else []
  }

  /** The handler calls that a task will never make. */
  function LostOf(t: Task): seq<Delivery> {
    if t.phase.Failed? then t.phase.lost else []
  }

  /** A task throws, or is stopped, and drops the calls it had not made. A call that throws was
      made: its task advances and then fails. */
  function FailTask(w: World, i: nat): World
    requires i < |w.tasks|
  {
    match w.tasks[i].phase
    case Done(_) => w
    case Skipped => w
    case Failed(_) => w
    case _ => w.(tasks := w.tasks[i := Task(Failed(PendingOf(w.tasks[i])), Stop)])
  }

  /** An action that is not possible changes nothing. The chain only grows by well-formed
      blocks, and a sync is only asked for blocks that exist. */
  ghost function Step(cfg: Config, w: World, a: Action): World {
    match a
    case AppendBlock(block) => if WellFormed(w.chain + [block]) then w.(chain := w.chain + [block]) else w
    case StartLive(blockNumber) =>
      if blockNumber >= |w.chain| then w
      else if w.checkpoint.Some? then NewTask(w, Task(Checking(w.checkpoint.value, 0, blockNumber), Stop))
      else NewTask(w, BeginAbove(None, blockNumber))
    case StartHistorical => NewTask(w, Task(Locating(HistoricalStart(cfg, w.checkpoint)), Stop))
    case Locate(i, safeLatest) =>
      if i < |w.tasks| && w.tasks[i].phase.Locating? && safeLatest < |w.chain|
      then w.(tasks := w.tasks[i := BeginHistorical(w.tasks[i].phase.start, safeLatest)])
      else w
    case Advance(i) => if i < |w.tasks| then AdvanceTask(cfg, w, i) else w
    case Fail(i) => if i < |w.tasks| then FailTask(w, i) else w
  }

  const START: World := World([], [], None, [], [])

  ghost function After(cfg: Config, run: seq<Action>): World {
    if run == [] then START else Step(cfg, After(cfg, run[..|run| - 1]), run[|run| - 1])
  }

  // ---------------------------------------------------------------------------
  // The invariant
  // ---------------------------------------------------------------------------

  /** The first block that the indexer answers for. */
  function FirstBlock(cfg: Config): nat {
    if cfg.startBlock > 1 then cfg.startBlock else 1
  }

  /** Every wanted log from the first block up to `n` is stored. */
  ghost predicate Covered(cfg: Config, chain: Chain, events: seq<Event>, n: int) {
    forall log | OnChain(chain, log) && FirstBlock(cfg) <= log.blockNumber <= n && Wanted(cfg, log) ::
      EventOf(cfg, log).value in events
  }

  /** Every stored event was made from a log of the chain. */
  ghost predicate Genuine(cfg: Config, chain: Chain, events: seq<Event>) {
    forall e | e in events :: exists log :: OnChain(chain, log) && EventOf(cfg, log) == Some(e)
  }

  ghost predicate CheckpointSafe(cfg: Config, chain: Chain, events: seq<Event>, cp: Checkpoint) {
    0 <= cp.blockNumber < |chain| && Covered(cfg, chain, events, cp.blockNumber)
  }

  /** A range about to be synced has no gap below it. */
  ghost predicate RangeSafe(cfg: Config, chain: Chain, events: seq<Event>, from: int, upTo: int) {
    0 <= upTo < |chain| && from <= |chain| && Covered(cfg, chain, events, from - 1)
  }

  ghost predicate TaskSafe(cfg: Config, chain: Chain, events: seq<Event>, t: Task) {
    && match t.phase {
         case Locating(start) =>
           0 <= start && (start <= |chain| || start <= FirstBlock(cfg)) && Covered(cfg, chain, events, start - 1)
         case Checking(cp, _, blockNumber) =>
           t.follow.Stop? && blockNumber < |chain| && CheckpointSafe(cfg, chain, events, cp)
         case Fetching(from, upTo, queried, logs) =>
           && RangeSafe(cfg, chain, events, from, upTo) && FollowSafe(chain, t.follow, upTo)
           && queried <= |cfg.contracts| && logs == FetchUpTo(cfg, chain, from, upTo, queried)
         case Fetched(from, upTo, logs) =>
           && RangeSafe(cfg, chain, events, from, upTo) && FollowSafe(chain, t.follow, upTo)
           && logs != [] && logs == Fetch(cfg, chain, from, upTo)
         case Deduped(from, upTo, logs, dups) =>
           && RangeSafe(cfg, chain, events, from, upTo) && FollowSafe(chain, t.follow, upTo)
           && logs != [] && logs == Fetch(cfg, chain, from, upTo) && dups <= KeysOf(events)
         case Notifying(upTo, last, pending) =>
           && 0 <= last.blockNumber <= upTo < |chain|
           && Covered(cfg, chain, events, upTo) && FollowSafe(chain, t.follow, upTo)
           && forall d | d in pending :: d.event in events
         case Done(upTo) => upTo < |chain| && Covered(cfg, chain, events, upTo)
         case Skipped => true
         case Failed(_) => true
       }
  }

  ghost predicate FollowSafe(chain: Chain, follow: Follow, upTo: int) {
    follow.NextBatch? ==>
      0 <= follow.next && follow.safeLatest < |chain| && (follow.next < follow.safeLatest ==> follow.next <= upTo + 1)
  }

  ghost predicate Safe(cfg: Config, w: World) {
    && WellFormed(w.chain)
    && Genuine(cfg, w.chain, w.events)
    && (w.checkpoint.Some? ==> CheckpointSafe(cfg, w.chain, w.events, w.checkpoint.value))
    && (forall d | d in w.deliveries :: d.event in w.events)
    && (forall i | 0 <= i < |w.tasks| :: TaskSafe(cfg, w.chain, w.events, w.tasks[i]))
  }

  // ---------------------------------------------------------------------------
  // Each step keeps it
  // ---------------------------------------------------------------------------

  /** Storing more events and appending blocks keep every promise made about older blocks. */
  lemma CoveredKept(cfg: Config, chain: Chain, events: seq<Event>, blocks: Chain, more: seq<Event>, n: int)
    requires n < |chain| && Covered(cfg, chain, events, n)
    ensures Covered(cfg, chain + blocks, events + more, n)
  {
    forall log | OnChain(chain + blocks, log) && FirstBlock(cfg) <= log.blockNumber <= n && Wanted(cfg, log)
      ensures EventOf(cfg, log).value in events + more
    {
      assert OnChain(chain, log);
    }
  }

  lemma TaskKept(cfg: Config, chain: Chain, events: seq<Event>, blocks: Chain, more: seq<Event>, t: Task)
    requires TaskSafe(cfg, chain, events, t)
    ensures TaskSafe(cfg, chain + blocks, events + more, t)
  {
    match t.phase {
      case Locating(start) =>
        if start <= |chain| {
          CoveredKept(cfg, chain, events, blocks, more, start - 1);
        }
      case Checking(cp, _, _) =>
        CoveredKept(cfg, chain, events, blocks, more, cp.blockNumber);
      case Fetching(from, upTo, queried, _) =>
        CoveredKept(cfg, chain, events, blocks, more, from - 1);
        FetchStable(cfg, chain, blocks, from, upTo, queried);
      case Fetched(from, upTo, _) =>
        CoveredKept(cfg, chain, events, blocks, more, from - 1);
        FetchStable(cfg, chain, blocks, from, upTo, |cfg.contracts|);
      case Deduped(from, upTo, _, _) =>
        CoveredKept(cfg, chain, events, blocks, more, from - 1);
        FetchStable(cfg, chain, blocks, from, upTo, |cfg.contracts|);
      case Notifying(upTo, _, _) =>
        CoveredKept(cfg, chain, events, blocks, more, upTo);
      case Done(upTo) =>
        CoveredKept(cfg, chain, events, blocks, more, upTo);
      case _ =>
    }
  }

  /** The whole world after the chain or the storage grew. */
  lemma GrowthKeepsSafe(cfg: Config, w: World, blocks: Chain, more: seq<Event>)
    requires Safe(cfg, w) && WellFormed(w.chain + blocks)
    requires Genuine(cfg, w.chain, more)
    ensures Safe(cfg, w.(chain := w.chain + blocks, events := w.events + more))
  {
    forall e | e in w.events + more
      ensures exists log :: OnChain(w.chain + blocks, log) && EventOf(cfg, log) == Some(e)
    {
      var log :| OnChain(w.chain, log) && EventOf(cfg, log) == Some(e);
      assert OnChain(w.chain + blocks, log);
    }
    if w.checkpoint.Some? {
      CoveredKept(cfg, w.chain, w.events, blocks, more, w.checkpoint.value.blockNumber);
    }
    forall i | 0 <= i < |w.tasks| {
      TaskKept(cfg, w.chain, w.events, blocks, more, w.tasks[i]);
    }
  }

  /** A range without logs is covered once everything below it is. */
  lemma EmptyRangeCovered(cfg: Config, chain: Chain, events: seq<Event>, from: int, upTo: int)
    requires WellFormed(chain) && RangeSafe(cfg, chain, events, from, upTo) && Fetch(cfg, chain, from, upTo) == []
    ensures Covered(cfg, chain, events, upTo)
  {
    forall log | OnChain(chain, log) && FirstBlock(cfg) <= log.blockNumber <= upTo && Wanted(cfg, log)
      ensures EventOf(cfg, log).value in events
    {
      FetchHas(cfg, chain, from, upTo, log);
    }
  }

  lemma FinishSafe(cfg: Config, chain: Chain, events: seq<Event>, follow: Follow, upTo: int)
    requires 0 <= upTo < |chain| && FollowSafe(chain, follow, upTo) && Covered(cfg, chain, events, upTo)
    ensures TaskSafe(cfg, chain, events, Finish(follow, upTo))
  {
  }

  /** Persisting a deduplicated batch covers its range: a log was dropped only because its key
      was stored, and the stored event with that key is that log's own. */
  lemma PersistCovers(cfg: Config, chain: Chain, events: seq<Event>, from: int, upTo: int, dups: set<Key>)
    requires WellFormed(chain) && Genuine(cfg, chain, events)
    requires RangeSafe(cfg, chain, events, from, upTo) && dups <= KeysOf(events)
    ensures var added := NewEvents(cfg, Fetch(cfg, chain, from, upTo), dups);
            Covered(cfg, chain, events + added, upTo) && Genuine(cfg, chain, added)
  {
    var logs := Fetch(cfg, chain, from, upTo);
    var added := NewEvents(cfg, logs, dups);
    forall log | OnChain(chain, log) && FirstBlock(cfg) <= log.blockNumber <= upTo && Wanted(cfg, log)
      ensures EventOf(cfg, log).value in events + added
    {
      if log.blockNumber >= from {
        FetchHas(cfg, chain, from, upTo, log);
        if KeyOf(log) in dups {
          var e :| e in events && EventKey(e) == KeyOf(log);
          var source :| OnChain(chain, source) && EventOf(cfg, source) == Some(e);
          KeyIdentifiesLog(chain, source, log);
        } else {
          NewEventsHas(cfg, logs, dups, EventOf(cfg, log).value);
        }
      }
    }
    forall e | e in added ensures exists log :: OnChain(chain, log) && EventOf(cfg, log) == Some(e) {
      NewEventsHas(cfg, logs, dups, e);
      var log :| log in logs && KeyOf(log) !in dups && EventOf(cfg, log) == Some(e);
      FetchHas(cfg, chain, from, upTo, log);
    }
  }

  lemma {:induction false} DeliveriesAreOf(handlers: nat, events: seq<Event>, d: Delivery)
    requires d in DeliveriesOf(handlers, events)
    ensures d.event in events && d.handler < handlers
  {
    if d !in ToEveryHandler(handlers, events[|events| - 1]) {
      DeliveriesAreOf(handlers, events[..|events| - 1], d);
    }
  }

  lemma NotifyingSafe(cfg: Config, chain: Chain, events: seq<Event>, added: seq<Event>, from: int, upTo: int,
                      follow: Follow)
    requires WellPlaced(chain) && 0 <= upTo < |chain| && FollowSafe(chain, follow, upTo)
    requires Fetch(cfg, chain, from, upTo) != [] && Covered(cfg, chain, events + added, upTo)
    ensures var logs := Fetch(cfg, chain, from, upTo);
            TaskSafe(cfg, chain, events + added,
                     Task(Notifying(upTo, logs[|logs| - 1], DeliveriesOf(cfg.handlers, added)), follow))
  {
    hide Covered, FollowSafe, Fetch, DeliveriesOf, WellPlaced;
    var logs := Fetch(cfg, chain, from, upTo);
    assert logs[|logs| - 1] in logs;
    FetchHas(cfg, chain, from, upTo, logs[|logs| - 1]);
    forall d | d in DeliveriesOf(cfg.handlers, added) ensures d.event in events + added {
      DeliveriesAreOf(cfg.handlers, added, d);
    }
  }

  lemma PersistKeepsSafe(cfg: Config, w: World, i: nat)
    requires Safe(cfg, w) && i < |w.tasks| && w.tasks[i].phase.Deduped?
    ensures Safe(cfg, AdvanceTask(cfg, w, i))
  {
    assert TaskSafe(cfg, w.chain, w.events, w.tasks[i]);
    var Deduped(from, upTo, logs, dups) := w.tasks[i].phase;
    var added := NewEvents(cfg, logs, dups);
    PersistCovers(cfg, w.chain, w.events, from, upTo, dups);
    var v := w.(events := w.events + added);
    assert Safe(cfg, v) by {
      assert w.chain + [] == w.chain;
      GrowthKeepsSafe(cfg, w, [], added);
    }
    NotifyingSafe(cfg, w.chain, w.events, added, from, upTo, w.tasks[i].follow);
    ReplaceKeepsSafe(cfg, v, i, AdvanceTask(cfg, w, i).tasks[i], v.checkpoint);
  }

  lemma ReplaceKeepsSafe(cfg: Config, w: World, i: nat, t: Task, checkpoint: Option<Checkpoint>)
    requires Safe(cfg, w) && i < |w.tasks| && TaskSafe(cfg, w.chain, w.events, t)
    requires checkpoint.Some? ==> CheckpointSafe(cfg, w.chain, w.events, checkpoint.value)
    ensures Safe(cfg, w.(tasks := w.tasks[i := t], checkpoint := checkpoint))
  {
  }

  lemma CheckKeepsSafe(cfg: Config, w: World, i: nat)
    requires Safe(cfg, w) && i < |w.tasks| && w.tasks[i].phase.Checking?
    ensures Safe(cfg, AdvanceTask(cfg, w, i))
  {
    assert TaskSafe(cfg, w.chain, w.events, w.tasks[i]);
    ReplaceKeepsSafe(cfg, w, i, AdvanceTask(cfg, w, i).tasks[i], w.checkpoint);
  }

  lemma FetchKeepsSafe(cfg: Config, w: World, i: nat)
    requires Safe(cfg, w) && i < |w.tasks| && w.tasks[i].phase.Fetching?
    ensures Safe(cfg, AdvanceTask(cfg, w, i))
  {
    assert TaskSafe(cfg, w.chain, w.events, w.tasks[i]);
    var Fetching(from, upTo, queried, logs) := w.tasks[i].phase;
    if queried == |cfg.contracts| && logs == [] {
      EmptyRangeCovered(cfg, w.chain, w.events, from, upTo);
      FinishSafe(cfg, w.chain, w.events, w.tasks[i].follow, upTo);
    }
    var v := AdvanceTask(cfg, w, i);
    ReplaceKeepsSafe(cfg, w, i, v.tasks[i], v.checkpoint);
  }

  lemma NotifyKeepsSafe(cfg: Config, w: World, i: nat)
    requires Safe(cfg, w) && i < |w.tasks| && w.tasks[i].phase.Notifying?
    ensures Safe(cfg, AdvanceTask(cfg, w, i))
  {
    assert TaskSafe(cfg, w.chain, w.events, w.tasks[i]);
    var Notifying(upTo, last, pending) := w.tasks[i].phase;
    var v := AdvanceTask(cfg, w, i);
    if pending == [] {
      FinishSafe(cfg, w.chain, w.events, w.tasks[i].follow, upTo);
    }
    ReplaceKeepsSafe(cfg, w, i, v.tasks[i], v.checkpoint);
  }

  lemma AdvanceKeepsSafe(cfg: Config, w: World, i: nat)
    requires Safe(cfg, w) && i < |w.tasks|
    ensures Safe(cfg, AdvanceTask(cfg, w, i))
  {
    var phase := w.tasks[i].phase;
    if phase.Checking? {
      CheckKeepsSafe(cfg, w, i);
    } else if phase.Fetching? {
      FetchKeepsSafe(cfg, w, i);
    } else if phase.Deduped? {
      PersistKeepsSafe(cfg, w, i);
    } else if phase.Notifying? {
      NotifyKeepsSafe(cfg, w, i);
    } else {
      assert TaskSafe(cfg, w.chain, w.events, w.tasks[i]);
      ReplaceKeepsSafe(cfg, w, i, AdvanceTask(cfg, w, i).tasks[i], w.checkpoint);
    }
  }

  lemma StepKeepsSafe(cfg: Config, w: World, a: Action)
    requires Safe(cfg, w)
    ensures Safe(cfg, Step(cfg, w, a))
  {
    match a {
      case AppendBlock(block) =>
        if WellFormed(w.chain + [block]) {
          GrowthKeepsSafe(cfg, w, [block], []);
          assert w.events + [] == w.events;
        }
      case Advance(i) =>
        if i < |w.tasks| {
          AdvanceKeepsSafe(cfg, w, i);
        }
      case Locate(i, safeLatest) =>
        LocateKeepsSafe(cfg, w, i, safeLatest);
      case _ =>
    }
  }

  lemma LocateKeepsSafe(cfg: Config, w: World, i: nat, safeLatest: int)
    requires Safe(cfg, w)
    ensures Safe(cfg, Step(cfg, w, Locate(i, safeLatest)))
  {
    if i < |w.tasks| && w.tasks[i].phase.Locating? && safeLatest < |w.chain| {
      assert TaskSafe(cfg, w.chain, w.events, w.tasks[i]);
      ReplaceKeepsSafe(cfg, w, i, BeginHistorical(w.tasks[i].phase.start, safeLatest), w.checkpoint);
    }
  }

  // ---------------------------------------------------------------------------
  // Safety
  // ---------------------------------------------------------------------------

  lemma {:induction false} EveryWorldIsSafe(cfg: Config, run: seq<Action>)
    ensures Safe(cfg, After(cfg, run))
  {
    if run != [] {
      EveryWorldIsSafe(cfg, run[..|run| - 1]);
      StepKeepsSafe(cfg, After(cfg, run[..|run| - 1]), run[|run| - 1]);
    }
  }

  /** Under every interleaving, with failures anywhere: whatever the checkpoint says, even after
      it moved backwards, every wanted log from the first block up to it is stored. */
  lemma CheckpointNeverSkips(cfg: Config, run: seq<Action>, log: Log)
    requires var w := After(cfg, run);
             && w.checkpoint.Some? && OnChain(w.chain, log) && Wanted(cfg, log)
             && 1 <= log.blockNumber && cfg.startBlock <= log.blockNumber <= w.checkpoint.value.blockNumber
    ensures EventOf(cfg, log).value in After(cfg, run).events
  {
    EveryWorldIsSafe(cfg, run);
  }

  /** A task that finished has left every wanted log up to the end of its range stored, even
      where the checkpoint it wrote is lower. */
  lemma FinishedTaskCovers(cfg: Config, run: seq<Action>, i: nat, log: Log)
    requires var w := After(cfg, run);
             && i < |w.tasks| && w.tasks[i].phase.Done? && OnChain(w.chain, log) && Wanted(cfg, log)
             && 1 <= log.blockNumber && cfg.startBlock <= log.blockNumber <= w.tasks[i].phase.upTo
    ensures EventOf(cfg, log).value in After(cfg, run).events
  {
    EveryWorldIsSafe(cfg, run);
    assert TaskSafe(cfg, After(cfg, run).chain, After(cfg, run).events, After(cfg, run).tasks[i]);
  }

  /** In a reachable world nothing wanted is missing from the first block up to the checkpoint. */
  lemma NothingMissingInReach(cfg: Config, run: seq<Action>, from: int)
    requires After(cfg, run).checkpoint.Some? && from >= 1 && from >= cfg.startBlock
    ensures var w := After(cfg, run);
            AllKnown(cfg, w.chain, from, w.checkpoint.value.blockNumber, KeysOf(w.events))
  {
    hide After;
    var w := After(cfg, run);
    forall log | OnChain(w.chain, log) && from <= log.blockNumber <= w.checkpoint.value.blockNumber && Wanted(cfg, log)
      ensures KeyOf(log) in KeysOf(w.events)
    {
      CheckpointNeverSkips(cfg, run, log);
      assert EventKey(EventOf(cfg, log).value) in KeysOf(w.events);
    }
  }

  /** When the sync after a false reorg is harmless in a reachable world, exactly: the blocks from
      before the first one, as far as it goes back over them, must be stored. From the first block
      on nothing is asked: it is harmless wherever it does not reach below the start. */
  lemma FalseReorgInReach(cfg: Config, run: seq<Action>, blockNumber: nat)
    requires After(cfg, run).checkpoint.Some?
    requires LiveRange(cfg, After(cfg, run).chain, After(cfg, run).checkpoint, blockNumber).Some?
    ensures var w := After(cfg, run);
            var range := LiveRange(cfg, w.chain, w.checkpoint, blockNumber).value;
            var cp := w.checkpoint.value.blockNumber;
            && (SameEffect(cfg, w.chain, StateOf(w), range, (cp + 1, blockNumber)) <==>
                AllKnown(cfg, w.chain, range.0, Least(Least(cp, blockNumber), FirstBlock(cfg) - 1), KeysOf(w.events)))
            && (range.0 >= 1 && range.0 >= cfg.startBlock ==>
                SameEffect(cfg, w.chain, StateOf(w), range, (cp + 1, blockNumber)))
  {
    var w := After(cfg, run);
    EveryWorldIsSafe(cfg, run);
    hide After, SameEffect, LiveRange, KeysOf;
    var from := LiveRange(cfg, w.chain, w.checkpoint, blockNumber).value.0;
    var mid := Least(w.checkpoint.value.blockNumber, blockNumber);
    FalseReorgIsHarmless(cfg, w.chain, StateOf(w), blockNumber);
    NothingMissingInReach(cfg, run, FirstBlock(cfg));
    AllKnownSplits(cfg, w.chain, from, mid, FirstBlock(cfg), w.checkpoint.value.blockNumber, KeysOf(w.events));
  }

  /** With nothing missing from `first` up to `top`, a range up to there lacks only what is below `first`. */
  lemma AllKnownSplits(cfg: Config, chain: Chain, from: int, mid: int, first: int, top: int, stored: set<Key>)
    requires mid <= top && AllKnown(cfg, chain, first, top, stored)
    ensures AllKnown(cfg, chain, from, mid, stored) <==> AllKnown(cfg, chain, from, Least(mid, first - 1), stored)
    ensures from >= first ==> AllKnown(cfg, chain, from, mid, stored)
  {
    var low := Least(mid, first - 1);
    forall log ensures Missing(cfg, chain, stored, from, mid, log) <==> Missing(cfg, chain, stored, from, low, log) {
      assert !Missing(cfg, chain, stored, first, top, log);
    }
  }

  // ---------------------------------------------------------------------------
  // Alone, a task is the sequential sync
  // ---------------------------------------------------------------------------

  function AdvanceTimes(cfg: Config, w: World, i: nat, n: nat): World
    requires i < |w.tasks|
    decreases n
  {
    if n == 0 then w else AdvanceTimes(cfg, AdvanceTask(cfg, w, i), i, n - 1)
  }

  lemma {:induction false} AdvanceTimesAdd(cfg: Config, w: World, i: nat, m: nat, n: nat)
    requires i < |w.tasks|
    ensures |AdvanceTimes(cfg, w, i, m).tasks| > i
    ensures AdvanceTimes(cfg, w, i, m + n) == AdvanceTimes(cfg, AdvanceTimes(cfg, w, i, m), i, n)
    decreases m
  {
    if m > 0 {
      AdvanceTimesAdd(cfg, AdvanceTask(cfg, w, i), i, m - 1, n);
    }
  }

  lemma {:induction false} QueriesAlone(cfg: Config, w: World, i: nat, n: nat)
    requires i < |w.tasks| && w.tasks[i].phase.Fetching? && n == |cfg.contracts| - w.tasks[i].phase.queried
    requires var p := w.tasks[i].phase; p.logs == FetchUpTo(cfg, w.chain, p.from, p.upTo, p.queried)
    ensures var p := w.tasks[i].phase;
            var fetched := Fetching(p.from, p.upTo, |cfg.contracts|, Fetch(cfg, w.chain, p.from, p.upTo));
            AdvanceTimes(cfg, w, i, n) == w.(tasks := w.tasks[i := Task(fetched, w.tasks[i].follow)])
    decreases n
  {
    if n > 0 {
      QueriesAlone(cfg, AdvanceTask(cfg, w, i), i, n - 1);
    }
  }

  /** After the first `n` of its pending calls. */
  lemma {:induction false} HandlersAlone(cfg: Config, w: World, i: nat, n: nat)
    requires i < |w.tasks| && w.tasks[i].phase.Notifying? && n <= |w.tasks[i].phase.pending|
    ensures var p := w.tasks[i].phase;
            AdvanceTimes(cfg, w, i, n) ==
            w.(deliveries := w.deliveries + p.pending[..n],
               tasks := w.tasks[i := Task(Notifying(p.upTo, p.last, p.pending[n..]), w.tasks[i].follow)])
    decreases n
  {
    var p := w.tasks[i].phase;
    if n > 0 {
      var v := AdvanceTask(cfg, w, i);
      HandlersAlone(cfg, v, i, n - 1);
      assert w.deliveries + p.pending[..n] == v.deliveries + p.pending[1..][..n - 1];
      assert p.pending[1..][n - 1..] == p.pending[n..];
    }
  }

  lemma PersistAlone(cfg: Config, w: World, i: nat)
    requires i < |w.tasks| && w.tasks[i].phase.Fetching? && w.tasks[i].phase.logs != []
    requires w.tasks[i].phase.queried == |cfg.contracts|
    ensures var p := w.tasks[i].phase;
            var added := NewEvents(cfg, p.logs, KeysOf(w.events));
            var all := DeliveriesOf(cfg.handlers, added);
            AdvanceTimes(cfg, w, i, 3) ==
            w.(events := w.events + added,
               tasks := w.tasks[i := Task(Notifying(p.upTo, p.logs[|p.logs| - 1], all), w.tasks[i].follow)])
  {
    var fetched := AdvanceTask(cfg, w, i);
    var read := AdvanceTask(cfg, fetched, i);
    assert AdvanceTimes(cfg, read, i, 1) == AdvanceTask(cfg, read, i);
    assert AdvanceTimes(cfg, fetched, i, 2) == AdvanceTimes(cfg, read, i, 1);
  }

  /** With the logs of its range in hand, a task left alone reads the stored keys, persists, and
      hands the events it added to the handlers, here for the first `calls` calls. */
  lemma RestAlone(cfg: Config, w: World, i: nat, calls: nat) returns (n: nat)
    requires i < |w.tasks| && w.tasks[i].phase.Fetching? && w.tasks[i].phase.logs != []
    requires w.tasks[i].phase.queried == |cfg.contracts|
    requires calls <= |DeliveriesOf(cfg.handlers, NewEvents(cfg, w.tasks[i].phase.logs, KeysOf(w.events)))|
    ensures var p := w.tasks[i].phase;
            var added := NewEvents(cfg, p.logs, KeysOf(w.events));
            var all := DeliveriesOf(cfg.handlers, added);
            AdvanceTimes(cfg, w, i, n) ==
            w.(events := w.events + added,
               deliveries := w.deliveries + all[..calls],
               tasks := w.tasks[i := Task(Notifying(p.upTo, p.logs[|p.logs| - 1], all[calls..]), w.tasks[i].follow)])
  {
    hide AdvanceTimes, NewEvents, DeliveriesOf, KeysOf;
    n := 3 + calls;
    var p := w.tasks[i].phase;
    PersistAlone(cfg, w, i);
    var persisted := AdvanceTimes(cfg, w, i, 3);
    HandlersAlone(cfg, persisted, i, calls);
    AdvanceTimesAdd(cfg, w, i, 3, calls);
    var all := persisted.tasks[i].phase.pending;
    var t := Task(Notifying(p.upTo, p.logs[|p.logs| - 1], all[calls..]), w.tasks[i].follow);
    assert persisted.tasks[i := t] == w.tasks[i := t];
  }

  /** What is left to do once the range is fetched. */
  lemma FetchedAlone(cfg: Config, w: World, i: nat, from: int, upTo: int) returns (n: nat)
    requires i < |w.tasks|
    requires w.tasks[i].phase == Fetching(from, upTo, |cfg.contracts|, Fetch(cfg, w.chain, from, upTo))
    ensures AdvanceTimes(cfg, w, i, n) == Synced(cfg, w, i, from, upTo)
  {
    n := 0;
    if Fetch(cfg, w.chain, from, upTo) != [] {
      var all := CallsOf(cfg, w.chain, State(w.events, w.checkpoint, w.deliveries), from, upTo);
      n := RestAlone(cfg, w, i, |all|);
      assert all[..|all|] == all && all[|all|..] == [];
    }
    var last := AdvanceTimes(cfg, w, i, n);
    AdvanceTimesAdd(cfg, w, i, n, 1);
    assert AdvanceTimes(cfg, last, i, 1) == AdvanceTask(cfg, last, i);
    n := n + 1;
  }

  function StateOf(w: World): State {
    State(w.events, w.checkpoint, w.deliveries)
  }

  /** The world in which `s` came of task `i`, which then was `t`. */
  function With(w: World, s: State, i: nat, t: Task): World
    requires i < |w.tasks|
  {
    World(w.chain, s.events, s.checkpoint, s.deliveries, w.tasks[i := t])
  }

  /** The world in which the sequential sync of a range took the place of task `i`. */
  function Synced(cfg: Config, w: World, i: nat, from: int, upTo: int): World
    requires i < |w.tasks|
  {
    With(w, Sync(cfg, w.chain, StateOf(w), from, upTo), i, Finish(w.tasks[i].follow, upTo))
  }

  /** A task left alone from the start of its range to the end does to events, checkpoint and
      deliveries what the sequential sync of that range does. */
  lemma AloneIsSequential(cfg: Config, w: World, i: nat, from: int, upTo: int) returns (n: nat)
    requires i < |w.tasks| && w.tasks[i] == Begin(from, upTo, w.tasks[i].follow)
    ensures AdvanceTimes(cfg, w, i, n) == Synced(cfg, w, i, from, upTo)
  {
    var k := |cfg.contracts|;
    QueriesAlone(cfg, w, i, k);
    var m := FetchedAlone(cfg, AdvanceTimes(cfg, w, i, k), i, from, upTo);
    AdvanceTimesAdd(cfg, w, i, k, m);
    n := k + m;
  }

  lemma ThrowingNeedsLogs(cfg: Config, chain: Chain, s: State, from: int, upTo: int, throws: Throws)
    requires !SyncOutcome(cfg, chain, s, from, upTo, throws).completed
    ensures Fetch(cfg, chain, from, upTo) != []
  {
  }

  /** The same with a handler that throws: a task does what the sequential sync does up to there,
      fails, and has lost the calls that were not made. */
  lemma ThrowingIsSequential(cfg: Config, w: World, i: nat, from: int, upTo: int, throws: Throws) returns (n: nat)
    requires i < |w.tasks| && w.tasks[i] == Begin(from, upTo, w.tasks[i].follow)
    requires !SyncOutcome(cfg, w.chain, StateOf(w), from, upTo, throws).completed
    ensures |AdvanceTimes(cfg, w, i, n).tasks| == |w.tasks|
    ensures FailTask(AdvanceTimes(cfg, w, i, n), i) ==
            With(w, SyncOutcome(cfg, w.chain, StateOf(w), from, upTo, throws).state, i,
                 Task(Failed(LostBy(cfg, StateOf(w), Round(w.chain, from, upTo, throws))), Stop))
  {
    ThrowingNeedsLogs(cfg, w.chain, StateOf(w), from, upTo, throws);
    hide AdvanceTimes, NewEvents, DeliveriesOf, KeysOf, Threw, CallsMade;
    var k := |cfg.contracts|;
    QueriesAlone(cfg, w, i, k);
    var fetched := AdvanceTimes(cfg, w, i, k);
    var all := CallsOf(cfg, w.chain, StateOf(w), from, upTo);
    var m := RestAlone(cfg, fetched, i, CallsMade(throws, |all|));
    AdvanceTimesAdd(cfg, w, i, k, m);
    n := k + m;
  }

  /** The reorg check left alone names the block that the sequential check names. */
  lemma {:induction false} CheckAlone(cfg: Config, w: World, i: nat, cp: Checkpoint, depth: nat, blockNumber: nat)
    returns (n: nat)
    requires i < |w.tasks| && w.tasks[i] == Task(Checking(cp, depth, blockNumber), Stop)
    ensures var r := ReorgBlock(w.chain, cp, cfg.maxReorgDepth, depth);
            var t := if r.Some? then Begin(r.value, blockNumber, Stop) else BeginAbove(w.checkpoint, blockNumber);
            AdvanceTimes(cfg, w, i, n) == w.(tasks := w.tasks[i := t])
    decreases cfg.maxReorgDepth - depth
  {
    hide GetLogs, NewEvents, KeysOf, DeliveriesOf;
    var v := AdvanceTask(cfg, w, i);
    n := 1;
    if v.tasks[i].phase.Checking? {
      var m := CheckAlone(cfg, v, i, cp, depth + 1, blockNumber);
      n := m + 1;
    } else {
      assert AdvanceTimes(cfg, v, i, 0) == v;
    }
  }

  /** With handlers that never throw, the outcome of a sync is the sync. */
  lemma CalmOutcome(cfg: Config, chain: Chain, s: State, from: int, upTo: int)
    ensures SyncOutcome(cfg, chain, s, from, upTo, NEVER) == Outcome(Sync(cfg, chain, s, from, upTo), true)
  {
    NeverThrew(|CallsOf(cfg, chain, s, from, upTo)|);
  }

  /** A live task, left alone from the announcement on, does what the sequential `onNewBlock` does. */
  lemma LiveAlone(cfg: Config, w: World, blockNumber: nat) returns (n: nat)
    requires blockNumber < |w.chain|
    ensures var v := Step(cfg, w, StartLive(blockNumber));
            var s := OnBlock(cfg, w.chain, StateOf(w), blockNumber, NEVER).state;
            && |v.tasks| == |w.tasks| + 1
            && AdvanceTimes(cfg, v, |w.tasks|, n) == With(v, s, |w.tasks|, LiveEnd(cfg, w, blockNumber))
  {
    hide Sync, SyncOutcome, AdvanceTimes;
    var v, i := Step(cfg, w, StartLive(blockNumber)), |w.tasks|;
    var ready := v;
    n := 0;
    NoSteps(cfg, v, i);
    if w.checkpoint.Some? {
      n := CheckAlone(cfg, v, i, w.checkpoint.value, 0, blockNumber);
      ready := AdvanceTimes(cfg, v, i, n);
    }
    var range := LiveRange(cfg, w.chain, w.checkpoint, blockNumber);
    if range.Some? {
      var m := AloneIsSequential(cfg, ready, i, range.value.0, blockNumber);
      AdvanceTimesAdd(cfg, v, i, n, m);
      CalmOutcome(cfg, w.chain, StateOf(w), range.value.0, blockNumber);
      n := n + m;
    }
  }

  function LiveEnd(cfg: Config, w: World, blockNumber: nat): Task {
    var range := LiveRange(cfg, w.chain, w.checkpoint, blockNumber);
    Task(if range.Some? then Done(blockNumber) else Skipped, Stop)
  }

  lemma NoSteps(cfg: Config, w: World, i: nat)
    requires i < |w.tasks|
    ensures AdvanceTimes(cfg, w, i, 0) == w
  {
  }

  lemma {:induction false} BatchesAlone(cfg: Config, w: World, i: nat, from: int, safeLatest: int, k: nat)
    returns (n: nat)
    requires i < |w.tasks| && from < safeLatest && w.tasks[i] == BeginBatch(from, safeLatest)
    ensures var s := SyncBatches(cfg, w.chain, StateOf(w), Batches(from, safeLatest), CALM, k).state;
            AdvanceTimes(cfg, w, i, n) == With(w, s, i, Task(Done(HistoricalEnd(from, safeLatest)), Stop))
    decreases safeLatest - from
  {
    hide Sync, SyncOutcome, SyncBatches, AdvanceTimes;
    var upTo := BatchEnd(from, safeLatest);
    n := AloneIsSequential(cfg, w, i, from, upTo);
    var v := AdvanceTimes(cfg, w, i, n);
    CalmOutcome(cfg, w.chain, StateOf(w), from, upTo);
    OneBatch(cfg, w.chain, StateOf(w), from, safeLatest, CALM, k, Outcome(StateOf(v), true));
    if from + BATCH_SIZE < safeLatest {
      var m := BatchesAlone(cfg, v, i, from + BATCH_SIZE, safeLatest, k + 1);
      AdvanceTimesAdd(cfg, w, i, n, m);
      n := n + m;
    } else {
      NoBatchesLeft(cfg, w.chain, StateOf(v), from + BATCH_SIZE, safeLatest, k + 1);
    }
  }

  lemma NoBatchesLeft(cfg: Config, chain: Chain, s: State, from: int, safeLatest: int, k: nat)
    requires from >= safeLatest
    ensures SyncBatches(cfg, chain, s, Batches(from, safeLatest), CALM, k) == Outcome(s, true)
  {
  }

  /** A historical task, left alone once it knows the head, does what the sequential `syncHistorical` does. */
  lemma HistoricalAlone(cfg: Config, w: World, safeLatest: int) returns (n: nat)
    requires safeLatest < |w.chain|
    ensures var from := HistoricalStart(cfg, w.checkpoint);
            var v := Step(cfg, Step(cfg, w, StartHistorical), Locate(|w.tasks|, safeLatest));
            var s := SyncBatches(cfg, w.chain, StateOf(w), Batches(from, safeLatest), CALM, 0).state;
            && |v.tasks| == |w.tasks| + 1
            && AdvanceTimes(cfg, v, |w.tasks|, n) ==
               With(v, s, |w.tasks|,
                    Task(if from < safeLatest then Done(HistoricalEnd(from, safeLatest)) else Skipped, Stop))
  {
    hide SyncBatches, AdvanceTimes;
    var from := HistoricalStart(cfg, w.checkpoint);
    var v := Step(cfg, Step(cfg, w, StartHistorical), Locate(|w.tasks|, safeLatest));
    if from < safeLatest {
      n := BatchesAlone(cfg, v, |w.tasks|, from, safeLatest, 0);
    } else {
      n := 0;
      NoSteps(cfg, v, |w.tasks|);
      NoBatchesLeft(cfg, w.chain, StateOf(w), from, safeLatest, 0);
    }
  }

  // ---------------------------------------------------------------------------
  // Which handler calls are made
  // ---------------------------------------------------------------------------

  /** What the tasks, one after the other, contribute to a list of calls. */
  function Collect(tasks: seq<Task>, part: Task -> seq<Delivery>): seq<Delivery> {
    if tasks == [] then []
    else Collect(tasks[..|tasks| - 1], part) + part(tasks[|tasks| - 1])
  }

  /** The calls made, those still to be made and those that never will be are the calls of the stored
      events, each once. */
  ghost predicate Accounted(cfg: Config, w: World) {
    multiset(w.deliveries) + multiset(Collect(w.tasks, PendingOf)) + multiset(Collect(w.tasks, LostOf))
    == multiset(DeliveriesOf(cfg.handlers, w.events))
  }

  lemma {:induction false} CollectReplaced(tasks: seq<Task>, part: Task -> seq<Delivery>, i: nat, t: Task)
    requires i < |tasks|
    ensures multiset(Collect(tasks[i := t], part)) + multiset(part(tasks[i]))
            == multiset(Collect(tasks, part)) + multiset(part(t))
  {
    var init, last := tasks[..|tasks| - 1], tasks[|tasks| - 1];
    if i == |tasks| - 1 {
      assert tasks[i := t][..|tasks| - 1] == init;
    } else {
      assert tasks[i := t] == init[i := t] + [last];
      CollectReplaced(init, part, i, t);
      var before, after := Collect(init, part), Collect(init[i := t], part);
      assert Collect(tasks[i := t], part) == after + part(last) && Collect(tasks, part) == before + part(last);
      assert multiset(after + part(last)) == multiset(after) + multiset(part(last));
      assert multiset(before + part(last)) == multiset(before) + multiset(part(last));
      AddToBoth(multiset(after), multiset(part(init[i])), multiset(before), multiset(part(t)), multiset(part(last)));
    }
  }

  lemma AddToBoth<T>(a: multiset<T>, b: multiset<T>, c: multiset<T>, d: multiset<T>, e: multiset<T>)
    requires a + b == c + d
    ensures (a + e) + b == (c + e) + d
  {
    assert (a + e) + b == (a + b) + e && (c + e) + d == (c + d) + e;
  }

  lemma CollectOneMore(tasks: seq<Task>, part: Task -> seq<Delivery>, t: Task)
    requires part(t) == []
    ensures Collect(tasks + [t], part) == Collect(tasks, part)
  {
    assert (tasks + [t])[..|tasks|] == tasks;
  }

  /** What leaves the accounts of one task and what enters them balance. */
  lemma Balance<T>(done: multiset<T>, pending: multiset<T>, lost: multiset<T>, p: multiset<T>, l: multiset<T>,
                   made: multiset<T>, pending': multiset<T>, lost': multiset<T>, p': multiset<T>, l': multiset<T>,
                   all: multiset<T>, more: multiset<T>)
    requires done + pending + lost == all
    requires pending' + p == pending + p' && lost' + l == lost + l'
    requires made + p' + l' == p + l + more
    ensures (done + made) + pending' + lost' == all + more
  {
    forall x ensures ((done + made) + pending' + lost')[x] == (all + more)[x] {
      assert (done + pending + lost)[x] == all[x];
      assert (pending' + p)[x] == (pending + p')[x] && (lost' + l)[x] == (lost + l')[x];
      assert (made + p' + l')[x] == (p + l + more)[x];
    }
  }

  /** What one step of a task did: calls it made, events it stored, and what its task became. */
  ghost predicate Did(w: World, v: World, i: nat, t: Task, made: seq<Delivery>, more: seq<Event>)
    requires i < |w.tasks|
  {
    v.deliveries == w.deliveries + made && v.events == w.events + more && v.tasks == w.tasks[i := t]
  }

  /** What a task owed and what it newly owes, with the calls made and the events stored, balance. */
  ghost predicate Balanced(cfg: Config, before: Task, after: Task, made: seq<Delivery>, more: seq<Event>) {
    multiset(made) + multiset(PendingOf(after)) + multiset(LostOf(after)) ==
    multiset(PendingOf(before)) + multiset(LostOf(before)) + multiset(DeliveriesOf(cfg.handlers, more))
  }

  lemma ReplacingKeepsAccounts(cfg: Config, w: World, v: World, i: nat, t: Task, made: seq<Delivery>, more: seq<Event>)
    requires Accounted(cfg, w) && i < |w.tasks| && Did(w, v, i, t, made, more)
             && Balanced(cfg, w.tasks[i], t, made, more)
    ensures Accounted(cfg, v)
  {
    hide Collect, DeliveriesOf, PendingOf, LostOf;
    CollectReplaced(w.tasks, PendingOf, i, t);
    CollectReplaced(w.tasks, LostOf, i, t);
    DeliveriesAppend(cfg.handlers, w.events, more);
    assert multiset(v.deliveries) == multiset(w.deliveries) + multiset(made);
    Balance(multiset(w.deliveries), multiset(Collect(w.tasks, PendingOf)), multiset(Collect(w.tasks, LostOf)),
            multiset(PendingOf(w.tasks[i])), multiset(LostOf(w.tasks[i])), multiset(made),
            multiset(Collect(v.tasks, PendingOf)), multiset(Collect(v.tasks, LostOf)),
            multiset(PendingOf(t)), multiset(LostOf(t)),
            multiset(DeliveriesOf(cfg.handlers, w.events)), multiset(DeliveriesOf(cfg.handlers, more)));
  }

  lemma AdvanceBalances(cfg: Config, w: World, i: nat) returns (t: Task, made: seq<Delivery>, more: seq<Event>)
    requires i < |w.tasks|
    ensures Did(w, AdvanceTask(cfg, w, i), i, t, made, more) && Balanced(cfg, w.tasks[i], t, made, more)
  {
    hide NewEvents, KeysOf, GetLogs, DeliveriesOf;
    t, made, more := AdvanceTask(cfg, w, i).tasks[i], [], [];
    NoEventsNoCalls(cfg.handlers);
    var phase := w.tasks[i].phase;
    if phase.Deduped? && phase.logs != [] {
      more := NewEvents(cfg, phase.logs, phase.dups);
    } else if phase.Notifying? && phase.pending != [] {
      assert phase.pending == [phase.pending[0]] + phase.pending[1..];
      made := [phase.pending[0]];
    }
  }

  lemma StepKeepsAccounts(cfg: Config, w: World, a: Action)
    requires Accounted(cfg, w)
    ensures Accounted(cfg, Step(cfg, w, a))
  {
    match a {
      case Advance(i) =>
        if i < |w.tasks| {
          hide AdvanceTask, Accounted, Balanced;
          var t, made, more := AdvanceBalances(cfg, w, i);
          ReplacingKeepsAccounts(cfg, w, AdvanceTask(cfg, w, i), i, t, made, more);
        }
      case Fail(i) =>
        if i < |w.tasks| {
          FailKeepsAccounts(cfg, w, i);
        }
      case Locate(i, safeLatest) =>
        LocateKeepsAccounts(cfg, w, i, safeLatest);
      case AppendBlock(_) =>
      case _ =>
        NewTaskKeepsAccounts(cfg, w, a);
    }
  }

  lemma FailKeepsAccounts(cfg: Config, w: World, i: nat)
    requires Accounted(cfg, w) && i < |w.tasks|
    ensures Accounted(cfg, FailTask(w, i))
  {
    hide Accounted, DeliveriesOf;
    NoEventsNoCalls(cfg.handlers);
    if FailTask(w, i) != w {
      ReplacingKeepsAccounts(cfg, w, FailTask(w, i), i, Task(Failed(PendingOf(w.tasks[i])), Stop), [], []);
    }
  }

  lemma LocateKeepsAccounts(cfg: Config, w: World, i: nat, safeLatest: int)
    requires Accounted(cfg, w)
    ensures Accounted(cfg, Step(cfg, w, Locate(i, safeLatest)))
  {
    hide Accounted, DeliveriesOf;
    NoEventsNoCalls(cfg.handlers);
    var v := Step(cfg, w, Locate(i, safeLatest));
    if v != w {
      ReplacingKeepsAccounts(cfg, w, v, i, v.tasks[i], [], []);
    }
  }

  lemma NewTaskKeepsAccounts(cfg: Config, w: World, a: Action)
    requires Accounted(cfg, w) && (a.StartLive? || a.StartHistorical?)
    ensures Accounted(cfg, Step(cfg, w, a))
  {
    hide Accounted;
    var v := Step(cfg, w, a);
    if v != w {
      OneMoreTaskAccounted(cfg, w, v.tasks[|w.tasks|]);
    }
  }

  lemma OneMoreTaskAccounted(cfg: Config, w: World, t: Task)
    requires Accounted(cfg, w) && PendingOf(t) == [] && LostOf(t) == []
    ensures Accounted(cfg, NewTask(w, t))
  {
    hide DeliveriesOf;
    CollectOneMore(w.tasks, PendingOf, t);
    CollectOneMore(w.tasks, LostOf, t);
  }

  /** In every run, failures included, every call for a stored event was made, is still to be made by
      a running task, or was lost by a failed one; and no other call is made. */
  lemma {:induction false} EveryCallIsAccountedFor(cfg: Config, run: seq<Action>)
    ensures Accounted(cfg, After(cfg, run))
  {
    if run != [] {
      EveryCallIsAccountedFor(cfg, run[..|run| - 1]);
      StepKeepsAccounts(cfg, After(cfg, run[..|run| - 1]), run[|run| - 1]);
    }
  }

  /** How often each handler is called for a key: as often as the key is stored, less the calls that
      are pending and the calls that were lost. */
  lemma CallsCounted(cfg: Config, run: seq<Action>, handler: nat, key: Key)
    ensures var w := After(cfg, run);
            DeliveryCount(w.deliveries, handler, key)
            + DeliveryCount(Collect(w.tasks, PendingOf), handler, key)
            + DeliveryCount(Collect(w.tasks, LostOf), handler, key)
            == if handler < cfg.handlers then KeyCount(w.events, key) else 0
  {
    var w := After(cfg, run);
    EveryCallIsAccountedFor(cfg, run);
    hide After, Collect, DeliveriesOf;
    var pending, lost := Collect(w.tasks, PendingOf), Collect(w.tasks, LostOf);
    assert multiset(pending + lost) == multiset(pending) + multiset(lost);
    CallsAreCounted(cfg.handlers, w.events, w.deliveries, pending + lost, handler, key);
    DeliveryCountAppend(pending, lost, handler, key);
  }

  lemma {:induction false} CollectsNothing(tasks: seq<Task>, part: Task -> seq<Delivery>)
    ensures Collect(tasks, part) == [] <==> forall t | t in tasks :: part(t) == []
  {
    if tasks != [] {
      var init, last := tasks[..|tasks| - 1], tasks[|tasks| - 1];
      CollectsNothing(init, part);
      assert forall t :: t in tasks <==> t in init || t == last;
    }
  }

  /** When no call is pending, every handler was called for every key exactly as often as the key is
      stored if and only if no task failed with calls still to make. */
  lemma CalledAsStoredExactly(cfg: Config, run: seq<Action>)
    requires forall t | t in After(cfg, run).tasks :: PendingOf(t) == []
    ensures var w := After(cfg, run);
            CalledAsStored(cfg.handlers, w.events, w.deliveries) <==> forall t | t in w.tasks :: LostOf(t) == []
  {
    var w := After(cfg, run);
    EveryCallIsAccountedFor(cfg, run);
    CollectsNothing(w.tasks, PendingOf);
    CollectsNothing(w.tasks, LostOf);
    NothingOpenExactly(cfg.handlers, w.events, w.deliveries, Collect(w.tasks, LostOf));
  }

  /** A failed task stays as it is, so what it lost is lost for good. */
  lemma {:induction false} FailedForGood(cfg: Config, run: seq<Action>, more: seq<Action>, i: nat)
    requires i < |After(cfg, run).tasks| && After(cfg, run).tasks[i].phase.Failed?
    ensures i < |After(cfg, run + more).tasks| && After(cfg, run + more).tasks[i] == After(cfg, run).tasks[i]
    decreases |more|
  {
    if more == [] {
      assert run + more == run;
    } else {
      var init, a := more[..|more| - 1], more[|more| - 1];
      FailedForGood(cfg, run, init, i);
      assert run + more == run + init + [a];
      AfterOneMore(cfg, run + init, a);
      StepLeavesFailed(cfg, After(cfg, run + init), a, i);
    }
  }

  lemma StepLeavesFailed(cfg: Config, w: World, a: Action, i: nat)
    requires i < |w.tasks| && w.tasks[i].phase.Failed?
    ensures i < |Step(cfg, w, a).tasks| && Step(cfg, w, a).tasks[i] == w.tasks[i]
  {
    hide NewEvents, GetLogs, KeysOf, DeliveriesOf, WellFormed;
  }

  lemma {:induction false} PartIsCounted(tasks: seq<Task>, part: Task -> seq<Delivery>, i: nat, handler: nat, key: Key)
    requires i < |tasks|
    ensures DeliveryCount(part(tasks[i]), handler, key) <= DeliveryCount(Collect(tasks, part), handler, key)
  {
    var init, last := tasks[..|tasks| - 1], tasks[|tasks| - 1];
    DeliveryCountAppend(Collect(init, part), part(last), handler, key);
    if i < |init| {
      PartIsCounted(init, part, i, handler, key);
    }
  }

  /** However the run goes on, the calls that a failed task lost are never made up for: the key stays
      stored more often than the handler was called for it. */
  lemma LostIsNeverMadeUp(cfg: Config, run: seq<Action>, more: seq<Action>, i: nat, handler: nat, key: Key)
    requires i < |After(cfg, run).tasks| && After(cfg, run).tasks[i].phase.Failed? && handler < cfg.handlers
    ensures var w := After(cfg, run + more);
            DeliveryCount(w.deliveries, handler, key) + DeliveryCount(LostOf(After(cfg, run).tasks[i]), handler, key)
            <= KeyCount(w.events, key)
  {
    hide After;
    FailedForGood(cfg, run, more, i);
    CallsCounted(cfg, run + more, handler, key);
    PartIsCounted(After(cfg, run + more).tasks, LostOf, i, handler, key);
  }

  // ---------------------------------------------------------------------------
  // Neither at least once nor at most once
  // ---------------------------------------------------------------------------

  /** A persisting task keeps stored keys unique if and only if nothing it adds was stored by
      another task since it read the stored keys, and no added log's address is configured twice. */
  lemma PersistKeepsKeysUniqueExactly(cfg: Config, w: World, i: nat)
    requires Safe(cfg, w) && i < |w.tasks| && w.tasks[i].phase.Deduped?
    requires StoredAtMostOnce(State(w.events, w.checkpoint, w.deliveries))
    ensures var v := AdvanceTask(cfg, w, i);
            var p := w.tasks[i].phase;
            StoredAtMostOnce(State(v.events, v.checkpoint, v.deliveries)) <==>
            forall log | OnChain(w.chain, log) && p.from <= log.blockNumber <= p.upTo && Wanted(cfg, log)
                         && KeyOf(log) !in p.dups ::
              KeyOf(log) !in KeysOf(w.events) && Copies(cfg.contracts, log.address, |cfg.contracts|) == 1
  {
    assert TaskSafe(cfg, w.chain, w.events, w.tasks[i]);
    var Deduped(from, upTo, logs, dups) := w.tasks[i].phase;
    var all := AdvanceTask(cfg, w, i).events;
    forall key ensures KeyCount(all, key) == KeyCount(w.events, key) + if key in dups then 0 else Hits(cfg, logs, key) {
      NewEventsCount(cfg, logs, dups, key);
      KeyCountAppend(w.events, NewEvents(cfg, logs, dups), key);
    }
    forall log | OnChain(w.chain, log) && from <= log.blockNumber <= upTo && Wanted(cfg, log) && KeyOf(log) !in dups
      ensures KeyCount(all, KeyOf(log)) <= 1 <==>
              KeyOf(log) !in KeysOf(w.events) && Copies(cfg.contracts, log.address, |cfg.contracts|) == 1
    {
      FetchHas(cfg, w.chain, from, upTo, log);
      HitsPositive(cfg, logs, KeyOf(log));
      HitsOfBatch(cfg, w.chain, from, upTo, log);
      KeyCountPositive(w.events, KeyOf(log));
    }
    forall key | KeyCount(all, key) > 1
      ensures exists log :: OnChain(w.chain, log) && from <= log.blockNumber <= upTo && Wanted(cfg, log)
                            && KeyOf(log) !in dups && KeyOf(log) == key
    {
      HitsPositive(cfg, logs, key);
      var log :| log in logs && KeyOf(log) == key && Wanted(cfg, log);
      FetchHas(cfg, w.chain, from, upTo, log);
    }
  }

  lemma AfterOneMore(cfg: Config, run: seq<Action>, a: Action)
    ensures After(cfg, run + [a]) == Step(cfg, After(cfg, run), a)
  {
    assert (run + [a])[..|run|] == run;
  }

  ghost predicate ReadyTwice(cfg: Config, w: World, log: Log) {
    var ready := Task(Deduped(1, 1, [log], {}), Stop);
    w.events == [] && w.tasks == [ready, ready]
  }

  /** Storing twice does happen: the socket and the poll timer announcing one block at once can store
      its event twice. */
  lemma OverlapStoresTwice(cfg: Config, log: Log) returns (run: seq<Action>)
    requires |cfg.contracts| == 1 && Wanted(cfg, log) && log.blockNumber == 1 && log.blockHash == "b1"
    ensures After(cfg, run).events == [EventOf(cfg, log).value, EventOf(cfg, log).value]
  {
    run := BothRead(cfg, log);
    run := PersistOne(cfg, run, 0, log);
    run := PersistOne(cfg, run, 1, log);
  }

  lemma PersistOne(cfg: Config, run: seq<Action>, i: nat, log: Log) returns (longer: seq<Action>)
    requires var w := After(cfg, run); i < |w.tasks| && w.tasks[i] == Task(Deduped(1, 1, [log], {}), Stop)
    requires Wanted(cfg, log)
    ensures var w := After(cfg, run);
            var e := EventOf(cfg, log).value;
            After(cfg, longer) ==
            w.(events := w.events + [e],
               tasks := w.tasks[i := Task(Notifying(1, log, DeliveriesOf(cfg.handlers, [e])), Stop)])
  {
    longer := run + [Advance(i)];
    AfterOneMore(cfg, run, Advance(i));
    OneNewEvent(cfg, [log], log);
  }

  /** And a call can be lost: its event is stored, its task fails before it makes the call, and no
      continuation of the run ever calls the handler for that event. */
  lemma FailureLosesCalls(cfg: Config, log: Log, more: seq<Action>) returns (run: seq<Action>)
    requires |cfg.contracts| == 1 && cfg.handlers > 0
    requires Wanted(cfg, log) && log.blockNumber == 1 && log.blockHash == "b1"
    ensures var w := After(cfg, run); w.events == [EventOf(cfg, log).value] && w.deliveries == []
    ensures var w := After(cfg, run + more); DeliveryCount(w.deliveries, 0, KeyOf(log)) < KeyCount(w.events, KeyOf(log))
  {
    var chain := [Block("b0", []), Block("b1", [log])];
    var t := Begin(1, 1, Stop);
    run := BothStarted(cfg, log);
    OnlyLogOfBlock(cfg, log);
    run := ReadAlone(cfg, run, 0, [t, t], chain, log);
    run := PersistOne(cfg, run, 0, log);
    var e := EventOf(cfg, log).value;
    var lost := DeliveriesOf(cfg.handlers, [e]);
    AfterOneMore(cfg, run, Fail(0));
    run := run + [Fail(0)];
    assert After(cfg, run).tasks[0] == Task(Failed(lost), Stop);
    LostIsNeverMadeUp(cfg, run, more, 0, 0, KeyOf(log));
    DeliveredAsStored(cfg.handlers, [e], 0, KeyOf(log));
    KeyCountOneMore([], e, KeyOf(log));
    assert [] + [e] == [e];
  }

  lemma OneNewEvent(cfg: Config, logs: seq<Log>, log: Log)
    requires |logs| == 1 && logs[0] == log && Wanted(cfg, log)
    ensures NewEvents(cfg, logs, {}) == [EventOf(cfg, log).value]
  {
    assert logs[..0] == [];
  }

  lemma SoleContract(cfg: Config, log: Log)
    requires |cfg.contracts| == 1 && Wanted(cfg, log)
    ensures log.address == cfg.contracts[0].address
  {
    FoundExactly(cfg.contracts, log.address);
  }

  lemma BothRead(cfg: Config, log: Log) returns (run: seq<Action>)
    requires |cfg.contracts| == 1 && Wanted(cfg, log) && log.blockNumber == 1 && log.blockHash == "b1"
    ensures ReadyTwice(cfg, After(cfg, run), log)
  {
    var chain := [Block("b0", []), Block("b1", [log])];
    var t := Begin(1, 1, Stop);
    run := BothStarted(cfg, log);
    OnlyLogOfBlock(cfg, log);
    run := ReadAlone(cfg, run, 0, [t, t], chain, log);
    run := ReadAlone(cfg, run, 1, [t, t][0 := Task(Deduped(1, 1, [log], {}), Stop)], chain, log);
  }

  lemma OnlyLogOfBlock(cfg: Config, log: Log)
    requires |cfg.contracts| == 1 && Wanted(cfg, log) && log.blockNumber == 1 && log.blockHash == "b1"
    ensures GetLogs([Block("b0", []), Block("b1", [log])], cfg.contracts[0].address, 1, 1) == [log]
  {
    SoleContract(cfg, log);
    assert GetLogs([Block("b0", []), Block("b1", [log])], log.address, 1, 0) == [];
    assert [log][0] == log && [log][1..] == [];
    assert AtAddress([log], log.address) == [log] + AtAddress([], log.address);
  }

  lemma TwoBlocksWellFormed(log: Log)
    requires log.blockNumber == 1 && log.blockHash == "b1"
    ensures WellFormed([Block("b0", [])]) && WellFormed([Block("b0", []), Block("b1", [log])])
  {
  }

  lemma BothStarted(cfg: Config, log: Log) returns (run: seq<Action>)
    requires log.blockNumber == 1 && log.blockHash == "b1"
    ensures After(cfg, run) ==
            World([Block("b0", []), Block("b1", [log])], [], None, [], [Begin(1, 1, Stop), Begin(1, 1, Stop)])
  {
    var genesis, block := Block("b0", []), Block("b1", [log]);
    TwoBlocksWellFormed(log);
    assert [] + [genesis] == [genesis] && [genesis] + [block] == [genesis, block];
    run := GrowBy(cfg, [], genesis);
    run := GrowBy(cfg, run, block);
    var w := After(cfg, run);
    assert w.chain == [genesis, block];
    AfterOneMore(cfg, run, StartLive(1));
    run := run + [StartLive(1)];
    assert After(cfg, run) == w.(tasks := [Begin(1, 1, Stop)]);
    AfterOneMore(cfg, run, StartLive(1));
    run := run + [StartLive(1)];
  }

  lemma GrowBy(cfg: Config, run: seq<Action>, block: Block) returns (longer: seq<Action>)
    requires WellFormed(After(cfg, run).chain + [block])
    ensures After(cfg, longer) == After(cfg, run).(chain := After(cfg, run).chain + [block])
  {
    longer := run + [AppendBlock(block)];
    AfterOneMore(cfg, run, AppendBlock(block));
  }

  lemma ReadAlone(cfg: Config, run: seq<Action>, i: nat, tasks: seq<Task>, chain: Chain, log: Log)
    returns (longer: seq<Action>)
    requires |cfg.contracts| == 1 && GetLogs(chain, cfg.contracts[0].address, 1, 1) == [log]
    requires i < |tasks| && tasks[i] == Begin(1, 1, Stop) && After(cfg, run) == World(chain, [], None, [], tasks)
    ensures After(cfg, longer) == World(chain, [], None, [], tasks[i := Task(Deduped(1, 1, [log], {}), Stop)])
  {
    longer := run;
    AfterOneMore(cfg, longer, Advance(i));
    longer := longer + [Advance(i)];
    assert [] + [log] == [log];
    assert After(cfg, longer) == World(chain, [], None, [], tasks[i := Task(Fetching(1, 1, 1, [log]), Stop)]);
    AfterOneMore(cfg, longer, Advance(i));
    longer := longer + [Advance(i)];
    assert After(cfg, longer) == World(chain, [], None, [], tasks[i := Task(Fetched(1, 1, [log]), Stop)]);
    AfterOneMore(cfg, longer, Advance(i));
    longer := longer + [Advance(i)];
    assert KeysOf([]) == {};
  }
}
