/** What the indexer reads: blocks, their logs, and the configured contracts. */
module EventChain {
  import opened Wrappers

  /** An address in its lower-case spelling. */
  type Address = string

  datatype Log = Log(address: Address, blockNumber: int, blockHash: string, txHash: string, index: nat, data: string)

  datatype Block = Block(hash: string, logs: seq<Log>)

  type Chain = seq<Block>

  /** The identity of a log: its transaction and its index. */
  type Key = (string, nat)

  function KeyOf(log: Log): Key {
    (log.txHash, log.index)
  }

  datatype Contract = Contract(name: string, address: Address, abi: seq<string>)

  /** What an ABI makes of a log it knows: an event name and its arguments. */
  datatype Decoded = Decoded(name: string, args: map<string, string>)

  /** `decode` is the ABI library: `None` stands for a log it throws on or does not know. */
  datatype Config = Config(
    chainId: nat,
    contracts: seq<Contract>,
    startBlock: nat,
    maxReorgDepth: int,
    handlers: nat,
    decode: (seq<string>, Log) -> Option<Decoded>)

  datatype Event = Event(
    chainId: nat, blockNumber: int, blockHash: string, txHash: string, logIndex: nat,
    contractName: string, contractAddress: Address, eventName: string, args: map<string, string>)

  function EventKey(e: Event): Key {
    (e.txHash, e.logIndex)
  }

  /** If `log` is in block `b`, it names that block. */
  ghost predicate PlacedAt(chain: Chain, b: int, log: Log) {
    0 <= b < |chain| && log in chain[b].logs ==> log.blockNumber == b && log.blockHash == chain[b].hash
  }

  /** Logs name the block they are in. */
  ghost predicate WellPlaced(chain: Chain) {
    forall b, log :: PlacedAt(chain, b, log)
  }

  /** Log `k` of block `b` and log `l` of block `c` do not share a key, unless they are one log. */
  ghost predicate KeysDiffer(chain: Chain, b: int, k: int, c: int, l: int) {
    0 <= b < |chain| && 0 <= k < |chain[b].logs| && 0 <= c < |chain| && 0 <= l < |chain[c].logs| ==>
      (KeyOf(chain[b].logs[k]) == KeyOf(chain[c].logs[l]) ==> b == c && k == l)
  }

  /** No two logs of the chain have one key. */
  ghost predicate UniqueKeys(chain: Chain) {
    forall b, k, c, l :: KeysDiffer(chain, b, k, c, l)
  }

  ghost predicate WellFormed(chain: Chain) {
    WellPlaced(chain) && UniqueKeys(chain)
  }

  predicate OnChain(chain: Chain, log: Log) {
    0 <= log.blockNumber < |chain| && log in chain[log.blockNumber].logs
  }

  /** The first configured contract at an address. */
  function FindContract(contracts: seq<Contract>, address: Address): Option<Contract> {
    if contracts == [] then None
    else if contracts[0].address == address then Some(contracts[0])
    else FindContract(contracts[1..], address)
  }

  lemma {:induction false} FoundExactly(contracts: seq<Contract>, address: Address)
    ensures FindContract(contracts, address).Some? <==>
            exists i :: 0 <= i < |contracts| && contracts[i].address == address
  {
    if contracts != [] {
      var rest := contracts[1..];
      FoundExactly(rest, address);
      assert forall i | 0 <= i < |rest| :: rest[i] == contracts[i + 1];
      if i :| 0 < i < |contracts| && contracts[i].address == address {
        assert rest[i - 1].address == address;
      }
    }
  }

  /** The event the pipeline makes of a log, or `None` for a log it skips. */
  function EventOf(cfg: Config, log: Log): (r: Option<Event>)
    ensures r.Some? ==> EventKey(r.value) == KeyOf(log) && r.value.blockNumber == log.blockNumber
  {
    match FindContract(cfg.contracts, log.address)
    case None => None
    case Some(contract) =>
      match cfg.decode(contract.abi, log)
      case None => None
      case Some(d) =>
        Some(Event(cfg.chainId, log.blockNumber, log.blockHash, log.txHash, log.index,
                   contract.name, log.address, d.name, d.args))
  }

  /** The decodable logs of tracked contracts. */
  predicate Wanted(cfg: Config, log: Log) {
    EventOf(cfg, log).Some?
  }

  // ---------------------------------------------------------------------------
  // Queries
  // ---------------------------------------------------------------------------

  function AtAddress(logs: seq<Log>, address: Address): seq<Log> {
    if logs == [] then []
    else (if logs[0].address == address then [logs[0]] else []) + AtAddress(logs[1..], address)
  }

  lemma {:induction false} AtAddressHas(logs: seq<Log>, address: Address, log: Log)
    ensures log in AtAddress(logs, address) <==> log in logs && log.address == address
  {
    if logs != [] {
      AtAddressHas(logs[1..], address, log);
      assert log in logs <==> log == logs[0] || log in logs[1..];
    }
  }

  /** The logs of an address keep their order. */
  lemma {:induction false} AtAddressAppend(a: seq<Log>, b: seq<Log>, address: Address)
    ensures AtAddress(a + b, address) == AtAddress(a, address) + AtAddress(b, address)
    ensures forall log: Log :: AtAddress([log], address) == if log.address == address then [log] else []
  {
    forall log: Log ensures AtAddress([log], address) == if log.address == address then [log] else [] {
      assert [log][1..] == [];
    }
    if a == [] {
      assert a + b == b;
    } else {
      assert (a + b)[1..] == a[1..] + b;
      AtAddressAppend(a[1..], b, address);
    }
  }

  /** `getLogs`: the chain's logs of one address in an inclusive block range. */
  function GetLogs(chain: Chain, address: Address, from: int, upTo: int): seq<Log>
    decreases upTo - from
  {
    if upTo < from then []
    else GetLogs(chain, address, from, upTo - 1) + LogsOfBlock(chain, address, upTo)
  }

  function LogsOfBlock(chain: Chain, address: Address, b: int): seq<Log> {
    if 0 <= b < |chain| then AtAddress(chain[b].logs, address) else []
  }

  /** The batch of a range: one query per contract, in configuration order. */
  function FetchUpTo(cfg: Config, chain: Chain, from: int, upTo: int, c: nat): seq<Log>
    requires c <= |cfg.contracts|
  {
    if c == 0 then []
    else FetchUpTo(cfg, chain, from, upTo, c - 1) + GetLogs(chain, cfg.contracts[c - 1].address, from, upTo)
  }

  function Fetch(cfg: Config, chain: Chain, from: int, upTo: int): seq<Log> {
    FetchUpTo(cfg, chain, from, upTo, |cfg.contracts|)
  }

  lemma LogsOfBlockHas(chain: Chain, address: Address, b: int, log: Log)
    requires WellPlaced(chain)
    ensures log in LogsOfBlock(chain, address, b) <==>
            OnChain(chain, log) && log.blockNumber == b && log.address == address
  {
    if 0 <= b < |chain| {
      assert PlacedAt(chain, b, log);
      AtAddressHas(chain[b].logs, address, log);
    }
  }

  lemma {:induction false} GetLogsHas(chain: Chain, address: Address, from: int, upTo: int, log: Log)
    requires WellPlaced(chain)
    ensures log in GetLogs(chain, address, from, upTo) <==>
            OnChain(chain, log) && from <= log.blockNumber <= upTo && log.address == address
    decreases upTo - from
  {
    if from <= upTo {
      GetLogsHas(chain, address, from, upTo - 1, log);
      LogsOfBlockHas(chain, address, upTo, log);
    }
  }

  /** One of the first `c` configured contracts has the address. */
  predicate Queried(contracts: seq<Contract>, c: nat, address: Address)
    requires c <= |contracts|
  {
    c > 0 && (contracts[c - 1].address == address || Queried(contracts, c - 1, address))
  }

  lemma {:induction false} QueriedExactly(contracts: seq<Contract>, c: nat, address: Address)
    requires c <= |contracts|
    ensures Queried(contracts, c, address) <==> exists i :: 0 <= i < c && contracts[i].address == address
  {
    if c > 0 {
      QueriedExactly(contracts, c - 1, address);
    }
  }

  lemma {:induction false} FetchUpToHas(cfg: Config, chain: Chain, from: int, upTo: int, c: nat, log: Log)
    requires c <= |cfg.contracts|
    requires forall i | 0 <= i < |cfg.contracts| ::
               log in GetLogs(chain, cfg.contracts[i].address, from, upTo) <==>
               OnChain(chain, log) && from <= log.blockNumber <= upTo && log.address == cfg.contracts[i].address
    ensures log in FetchUpTo(cfg, chain, from, upTo, c) <==>
            OnChain(chain, log) && from <= log.blockNumber <= upTo && Queried(cfg.contracts, c, log.address)
  {
    if c > 0 {
      FetchUpToHas(cfg, chain, from, upTo, c - 1, log);
    }
  }

  /** A batch holds every wanted log of its range, and only logs of its range. */
  lemma FetchHas(cfg: Config, chain: Chain, from: int, upTo: int, log: Log)
    requires WellPlaced(chain)
    ensures log in Fetch(cfg, chain, from, upTo) ==> OnChain(chain, log) && from <= log.blockNumber <= upTo
    ensures OnChain(chain, log) && from <= log.blockNumber <= upTo && Wanted(cfg, log) ==>
            log in Fetch(cfg, chain, from, upTo)
  {
    forall i | 0 <= i < |cfg.contracts| {
      GetLogsHas(chain, cfg.contracts[i].address, from, upTo, log);
    }
    FetchUpToHas(cfg, chain, from, upTo, |cfg.contracts|, log);
    QueriedExactly(cfg.contracts, |cfg.contracts|, log.address);
    FoundExactly(cfg.contracts, log.address);
  }

  lemma {:induction false} SameBlocksSameQuery(x: Chain, y: Chain, address: Address, from: int, upTo: int)
    requires forall b | b <= upTo :: LogsOfBlock(x, address, b) == LogsOfBlock(y, address, b)
    ensures GetLogs(x, address, from, upTo) == GetLogs(y, address, from, upTo)
    decreases upTo - from
  {
    if from <= upTo {
      SameBlocksSameQuery(x, y, address, from, upTo - 1);
    }
  }

  /** Blocks appended above a range do not change what a query of the range returns. */
  lemma GetLogsStable(chain: Chain, more: Chain, address: Address, from: int, upTo: int)
    requires upTo < |chain|
    ensures GetLogs(chain + more, address, from, upTo) == GetLogs(chain, address, from, upTo)
  {
    SameBlocksSameQuery(chain + more, chain, address, from, upTo);
  }

  lemma FetchStable(cfg: Config, chain: Chain, more: Chain, from: int, upTo: int, c: nat)
    requires upTo < |chain| && c <= |cfg.contracts|
    ensures FetchUpTo(cfg, chain + more, from, upTo, c) == FetchUpTo(cfg, chain, from, upTo, c)
  {
    forall i | 0 <= i < |cfg.contracts| {
      GetLogsStable(chain, more, cfg.contracts[i].address, from, upTo);
    }
    SameQueriesSameBatch(cfg, chain + more, chain, from, upTo, c);
  }

  lemma {:induction false} SameQueriesSameBatch(cfg: Config, x: Chain, y: Chain, from: int, upTo: int, c: nat)
    requires c <= |cfg.contracts|
    requires forall i | 0 <= i < |cfg.contracts| ::
               GetLogs(x, cfg.contracts[i].address, from, upTo) == GetLogs(y, cfg.contracts[i].address, from, upTo)
    ensures FetchUpTo(cfg, x, from, upTo, c) == FetchUpTo(cfg, y, from, upTo, c)
  {
    if c > 0 {
      SameQueriesSameBatch(cfg, x, y, from, upTo, c - 1);
    }
  }

  // ---------------------------------------------------------------------------
  // Deduplication
  // ---------------------------------------------------------------------------

  function KeysOf(events: seq<Event>): set<Key> {
    set e | e in events :: EventKey(e)
  }

  /** The events a batch adds when `dups` are the keys already stored. */
  function NewEvents(cfg: Config, logs: seq<Log>, dups: set<Key>): seq<Event> {
    if logs == [] then []
    else
      var init, last := logs[..|logs| - 1], logs[|logs| - 1];
      NewEvents(cfg, init, dups)
      + if KeyOf(last) !in dups && Wanted(cfg, last) then [EventOf(cfg, last).value] else []
  }

  lemma {:induction false} NewEventsHas(cfg: Config, logs: seq<Log>, dups: set<Key>, e: Event)
    ensures e in NewEvents(cfg, logs, dups) <==>
            exists log :: log in logs && KeyOf(log) !in dups && EventOf(cfg, log) == Some(e)
  {
    if logs != [] {
      var init, last := logs[..|logs| - 1], logs[|logs| - 1];
      NewEventsHas(cfg, init, dups, e);
      assert forall log :: log in logs <==> log in init || log == last;
    }
  }

  /** `e` is what log `log` and contract `i`, the first configured at its address, make, field by field. */
  ghost predicate MadeFrom(cfg: Config, e: Event, log: Log, i: int) {
    && 0 <= i < |cfg.contracts| && cfg.contracts[i].address == log.address
    && (forall j | 0 <= j < i :: cfg.contracts[j].address != log.address)
    && cfg.decode(cfg.contracts[i].abi, log).Some?
    && var d := cfg.decode(cfg.contracts[i].abi, log).value;
       && e.chainId == cfg.chainId
       && e.blockNumber == log.blockNumber && e.blockHash == log.blockHash
       && e.txHash == log.txHash && e.logIndex == log.index
       && e.contractName == cfg.contracts[i].name && e.contractAddress == log.address
       && e.eventName == d.name && e.args == d.args
  }

  lemma {:induction false} FoundFirst(contracts: seq<Contract>, address: Address, i: nat)
    requires i < |contracts| && contracts[i].address == address
    requires forall j | 0 <= j < i :: contracts[j].address != address
    ensures FindContract(contracts, address) == Some(contracts[i])
  {
    if i > 0 {
      assert contracts[0].address != address;
      FoundFirst(contracts[1..], address, i - 1);
    }
  }

  lemma {:induction false} FirstFound(contracts: seq<Contract>, address: Address) returns (i: nat)
    requires FindContract(contracts, address).Some?
    ensures i < |contracts| && contracts[i].address == address
    ensures forall j | 0 <= j < i :: contracts[j].address != address
  {
    if contracts[0].address == address {
      i := 0;
    } else {
      i := FirstFound(contracts[1..], address);
      i := i + 1;
      assert forall j | 1 <= j < i :: contracts[j] == contracts[1..][j - 1];
    }
  }

  lemma EventIsMade(cfg: Config, log: Log, e: Event)
    ensures EventOf(cfg, log) == Some(e) <==> exists i :: MadeFrom(cfg, e, log, i)
  {
    if EventOf(cfg, log) == Some(e) {
      var i := FirstFound(cfg.contracts, log.address);
      FoundFirst(cfg.contracts, log.address, i);
      assert MadeFrom(cfg, e, log, i);
    }
    if i :| MadeFrom(cfg, e, log, i) {
      FoundFirst(cfg.contracts, log.address, i);
    }
  }

  /** What a batch adds, exactly: for each of its logs whose transaction hash and index are not those
      of a stored event, and which the first contract configured at its address decodes, the event with
      that log's place, that contract's name and what was decoded. */
  lemma NewEventsExactly(cfg: Config, logs: seq<Log>, stored: seq<Event>, e: Event)
    ensures e in NewEvents(cfg, logs, KeysOf(stored)) <==>
            exists log, i :: && log in logs && MadeFrom(cfg, e, log, i)
                             && forall s | s in stored :: !(s.txHash == log.txHash && s.logIndex == log.index)
  {
    NewEventsHas(cfg, logs, KeysOf(stored), e);
    forall log ensures EventOf(cfg, log) == Some(e) <==> exists i :: MadeFrom(cfg, e, log, i) {
      EventIsMade(cfg, log, e);
    }
    forall log ensures KeyOf(log) in KeysOf(stored) <==>
                       exists s :: s in stored && s.txHash == log.txHash && s.logIndex == log.index {
      StoredKey(stored, log);
    }
  }

  lemma StoredKey(stored: seq<Event>, log: Log)
    ensures KeyOf(log) in KeysOf(stored) <==>
            exists s :: s in stored && s.txHash == log.txHash && s.logIndex == log.index
  {
  }

  /** Two different logs of a chain have different keys. */
  lemma KeyIdentifiesLog(chain: Chain, a: Log, b: Log)
    requires WellFormed(chain) && OnChain(chain, a) && OnChain(chain, b) && KeyOf(a) == KeyOf(b)
    ensures a == b
  {
    var k :| 0 <= k < |chain[a.blockNumber].logs| && chain[a.blockNumber].logs[k] == a;
    var l :| 0 <= l < |chain[b.blockNumber].logs| && chain[b.blockNumber].logs[l] == b;
    assert KeysDiffer(chain, a.blockNumber, k, b.blockNumber, l);
  }
}
