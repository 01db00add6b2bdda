/** Laws of the sequential indexer: exactly-once storage and delivery, harmless re-syncs, the
    reorg check's exact answer, and the partition of a historical sync. */
module IndexerLaws {
  import opened Wrappers
  import opened EventChain
  import opened Indexer
  import opened Sequences

  // ---------------------------------------------------------------------------
  // Counting by key
  // ---------------------------------------------------------------------------

  /** How often a key is stored. */
  function KeyCount(events: seq<Event>, key: Key): nat {
    if events == [] then 0
    else KeyCount(events[..|events| - 1], key) + if EventKey(events[|events| - 1]) == key then 1 else 0
  }

  /** How often a handler was called for a key. */
  function DeliveryCount(deliveries: seq<Delivery>, handler: nat, key: Key): nat {
    if deliveries == [] then 0
    else
      var last := deliveries[|deliveries| - 1];
      DeliveryCount(deliveries[..|deliveries| - 1], handler, key)
      + if last.handler == handler && EventKey(last.event) == key then 1 else 0
  }

  /** How many wanted logs of a batch have a key. */
  function Hits(cfg: Config, logs: seq<Log>, key: Key): nat {
    if logs == [] then 0
    else
      var last := logs[|logs| - 1];
      Hits(cfg, logs[..|logs| - 1], key) + if KeyOf(last) == key && Wanted(cfg, last) then 1 else 0
  }

  /** How many of the first `c` configured contracts have an address. */
  function Copies(contracts: seq<Contract>, address: Address, c: nat): nat
    requires c <= |contracts|
  {
    if c == 0 then 0
    else Copies(contracts, address, c - 1) + if contracts[c - 1].address == address then 1 else 0
  }

  lemma {:induction false} KeyCountAppend(a: seq<Event>, b: seq<Event>, key: Key)
    ensures KeyCount(a + b, key) == KeyCount(a, key) + KeyCount(b, key)
  {
    if b == [] {
      assert a + b == a;
    } else {
      var init := b[..|b| - 1];
      assert (a + b)[..|a + b| - 1] == a + init;
      KeyCountAppend(a, init, key);
    }
  }

  lemma {:induction false} KeyCountPositive(events: seq<Event>, key: Key)
    ensures KeyCount(events, key) > 0 <==> key in KeysOf(events)
  {
    if events != [] {
      var init, last := events[..|events| - 1], events[|events| - 1];
      KeyCountPositive(init, key);
      assert forall e :: e in events <==> e in init || e == last;
    }
  }

  lemma {:induction false} HitsAppend(cfg: Config, a: seq<Log>, b: seq<Log>, key: Key)
    ensures Hits(cfg, a + b, key) == Hits(cfg, a, key) + Hits(cfg, b, key)
  {
    if b == [] {
      assert a + b == a;
    } else {
      var init := b[..|b| - 1];
      assert (a + b)[..|a + b| - 1] == a + init;
      HitsAppend(cfg, a, init, key);
    }
  }

  lemma {:induction false} HitsPositive(cfg: Config, logs: seq<Log>, key: Key)
    ensures Hits(cfg, logs, key) > 0 <==> exists log :: log in logs && KeyOf(log) == key && Wanted(cfg, log)
  {
    if logs != [] {
      var init, last := logs[..|logs| - 1], logs[|logs| - 1];
      HitsPositive(cfg, init, key);
      assert forall log :: log in logs <==> log in init || log == last;
    }
  }

  lemma KeyCountOneMore(events: seq<Event>, e: Event, key: Key)
    ensures KeyCount(events + [e], key) == KeyCount(events, key) + if EventKey(e) == key then 1 else 0
  {
    assert (events + [e])[..|events|] == events;
  }

  lemma {:induction false} NewEventsCount(cfg: Config, logs: seq<Log>, dups: set<Key>, key: Key)
    ensures KeyCount(NewEvents(cfg, logs, dups), key) == if key in dups then 0 else Hits(cfg, logs, key)
  {
    if logs != [] {
      var init, last := logs[..|logs| - 1], logs[|logs| - 1];
      var before := NewEvents(cfg, init, dups);
      NewEventsCount(cfg, init, dups, key);
      if KeyOf(last) !in dups && Wanted(cfg, last) {
        KeyCountOneMore(before, EventOf(cfg, last).value, key);
      } else {
        assert before + [] == before;
      }
    }
  }

  lemma {:induction false} HitsAtAddress(cfg: Config, logs: seq<Log>, address: Address, log: Log)
    requires forall i, j | 0 <= i < j < |logs| :: KeyOf(logs[i]) != KeyOf(logs[j])
    requires forall l | l in logs && KeyOf(l) == KeyOf(log) :: l == log
    ensures Hits(cfg, AtAddress(logs, address), KeyOf(log)) ==
            if log in logs && log.address == address && Wanted(cfg, log) then 1 else 0
  {
    if logs != [] {
      var rest := logs[1..];
      HitsAtAddress(cfg, rest, address, log);
      var head := if logs[0].address == address then [logs[0]] else [];
      HitsAppend(cfg, head, AtAddress(rest, address), KeyOf(log));
      assert head != [] ==> head[..|head| - 1] == [];
      assert log in logs <==> log == logs[0] || log in rest;
      assert log == logs[0] ==> log !in rest;
    }
  }

  lemma HitsInBlock(cfg: Config, chain: Chain, b: nat, address: Address, log: Log)
    requires WellFormed(chain) && OnChain(chain, log) && b < |chain|
    ensures Hits(cfg, AtAddress(chain[b].logs, address), KeyOf(log)) ==
            if log.blockNumber == b && log.address == address && Wanted(cfg, log) then 1 else 0
  {
    var logs := chain[b].logs;
    forall l | l in logs && KeyOf(l) == KeyOf(log) ensures l == log {
      assert PlacedAt(chain, b, l);
      KeyIdentifiesLog(chain, l, log);
    }
    forall i, j | 0 <= i < j < |logs| ensures KeyOf(logs[i]) != KeyOf(logs[j]) {
      assert KeysDiffer(chain, b, i, b, j);
    }
    assert PlacedAt(chain, b, log);
    HitsAtAddress(cfg, logs, address, log);
  }

  lemma {:induction false} HitsOfQuery(cfg: Config, chain: Chain, address: Address, from: int, upTo: int, log: Log)
    requires 0 <= log.blockNumber < |chain|
    requires forall b: nat | b < |chain| :: Hits(cfg, AtAddress(chain[b].logs, address), KeyOf(log)) ==
               if log.blockNumber == b && log.address == address && Wanted(cfg, log) then 1 else 0
    ensures Hits(cfg, GetLogs(chain, address, from, upTo), KeyOf(log)) ==
            if from <= log.blockNumber <= upTo && log.address == address && Wanted(cfg, log) then 1 else 0
    decreases upTo - from
  {
    if from <= upTo {
      HitsOfQuery(cfg, chain, address, from, upTo - 1, log);
      var top := if 0 <= upTo < |chain| then AtAddress(chain[upTo].logs, address) else [];
      HitsAppend(cfg, GetLogs(chain, address, from, upTo - 1), top, KeyOf(log));
    }
  }

  lemma HitsOnChain(cfg: Config, chain: Chain, address: Address, from: int, upTo: int, log: Log)
    requires WellFormed(chain) && OnChain(chain, log)
    ensures Hits(cfg, GetLogs(chain, address, from, upTo), KeyOf(log)) ==
            if from <= log.blockNumber <= upTo && log.address == address && Wanted(cfg, log) then 1 else 0
  {
    forall b: nat | b < |chain| {
      HitsInBlock(cfg, chain, b, address, log);
    }
    HitsOfQuery(cfg, chain, address, from, upTo, log);
  }

  lemma {:induction false} HitsOfQueries(cfg: Config, chain: Chain, from: int, upTo: int, c: nat, log: Log)
    requires c <= |cfg.contracts|
    requires forall i | 0 <= i < |cfg.contracts| ::
               Hits(cfg, GetLogs(chain, cfg.contracts[i].address, from, upTo), KeyOf(log)) ==
               if from <= log.blockNumber <= upTo && log.address == cfg.contracts[i].address && Wanted(cfg, log)
               then 1 else 0
    ensures Hits(cfg, FetchUpTo(cfg, chain, from, upTo, c), KeyOf(log)) ==
            if from <= log.blockNumber <= upTo && Wanted(cfg, log) then Copies(cfg.contracts, log.address, c) else 0
  {
    hide GetLogs, Wanted;
    if c > 0 {
      HitsOfQueries(cfg, chain, from, upTo, c - 1, log);
      HitsAppend(cfg, FetchUpTo(cfg, chain, from, upTo, c - 1),
                 GetLogs(chain, cfg.contracts[c - 1].address, from, upTo), KeyOf(log));
    }
  }

  /** A wanted log of the range comes back once for every configured contract with its address. */
  lemma HitsOfBatch(cfg: Config, chain: Chain, from: int, upTo: int, log: Log)
    requires WellFormed(chain) && OnChain(chain, log)
    ensures Hits(cfg, Fetch(cfg, chain, from, upTo), KeyOf(log)) ==
            if from <= log.blockNumber <= upTo && Wanted(cfg, log)
            then Copies(cfg.contracts, log.address, |cfg.contracts|) else 0
  {
    forall i | 0 <= i < |cfg.contracts| {
      HitsOnChain(cfg, chain, cfg.contracts[i].address, from, upTo, log);
    }
    HitsOfQueries(cfg, chain, from, upTo, |cfg.contracts|, log);
  }

  // ---------------------------------------------------------------------------
  // Exactly once
  // ---------------------------------------------------------------------------

  ghost predicate StoredAtMostOnce(s: State) {
    forall key :: KeyCount(s.events, key) <= 1
  }

  /** A wanted log of the range that is not stored yet. */
  ghost predicate Missing(cfg: Config, chain: Chain, stored: set<Key>, from: int, upTo: int, log: Log) {
    OnChain(chain, log) && from <= log.blockNumber <= upTo && Wanted(cfg, log) && KeyOf(log) !in stored
  }

  lemma SyncCount(cfg: Config, chain: Chain, s: State, from: int, upTo: int, key: Key)
    ensures KeyCount(Sync(cfg, chain, s, from, upTo).events, key) ==
            if key in KeysOf(s.events) then KeyCount(s.events, key) else Hits(cfg, Fetch(cfg, chain, from, upTo), key)
  {
    var logs := Fetch(cfg, chain, from, upTo);
    KeyCountPositive(s.events, key);
    NewEventsCount(cfg, logs, KeysOf(s.events), key);
    KeyCountAppend(s.events, NewEvents(cfg, logs, KeysOf(s.events)), key);
  }

  /** One sync keeps stored keys unique if and only if no log that it adds has an address that
      is configured twice: the pipeline looks for duplicates in storage, not within a batch. */
  lemma SyncKeepsKeysUniqueExactly(cfg: Config, chain: Chain, s: State, from: int, upTo: int)
    requires WellFormed(chain) && StoredAtMostOnce(s)
    ensures StoredAtMostOnce(Sync(cfg, chain, s, from, upTo)) <==>
            forall log | Missing(cfg, chain, KeysOf(s.events), from, upTo, log) ::
              Copies(cfg.contracts, log.address, |cfg.contracts|) == 1
  {
    var logs, t := Fetch(cfg, chain, from, upTo), Sync(cfg, chain, s, from, upTo);
    forall log | Missing(cfg, chain, KeysOf(s.events), from, upTo, log)
      ensures KeyCount(t.events, KeyOf(log)) == Copies(cfg.contracts, log.address, |cfg.contracts|) >= 1
    {
      SyncCount(cfg, chain, s, from, upTo, KeyOf(log));
      HitsOfBatch(cfg, chain, from, upTo, log);
      FetchHas(cfg, chain, from, upTo, log);
      HitsPositive(cfg, logs, KeyOf(log));
    }
    forall key | KeyCount(t.events, key) > 1
      ensures exists log :: Missing(cfg, chain, KeysOf(s.events), from, upTo, log) && KeyOf(log) == key
    {
      SyncCount(cfg, chain, s, from, upTo, key);
      HitsPositive(cfg, logs, key);
      var log :| log in logs && KeyOf(log) == key && Wanted(cfg, log);
      FetchHas(cfg, chain, from, upTo, log);
    }
  }

  lemma SyncStores(cfg: Config, chain: Chain, s: State, from: int, upTo: int, key: Key)
    requires WellFormed(chain)
    ensures key in KeysOf(Sync(cfg, chain, s, from, upTo).events) <==>
            || key in KeysOf(s.events)
            || exists log :: Missing(cfg, chain, KeysOf(s.events), from, upTo, log) && KeyOf(log) == key
  {
    var logs, t := Fetch(cfg, chain, from, upTo), Sync(cfg, chain, s, from, upTo);
    SyncCount(cfg, chain, s, from, upTo, key);
    KeyCountPositive(t.events, key);
    KeyCountPositive(s.events, key);
    HitsPositive(cfg, logs, key);
    forall log ensures log in logs && Wanted(cfg, log) <==>
                       OnChain(chain, log) && from <= log.blockNumber <= upTo && Wanted(cfg, log) {
      FetchHas(cfg, chain, from, upTo, log);
    }
  }

  lemma {:induction false} DeliveryCountAppend(a: seq<Delivery>, b: seq<Delivery>, handler: nat, key: Key)
    ensures DeliveryCount(a + b, handler, key) == DeliveryCount(a, handler, key) + DeliveryCount(b, handler, key)
  {
    if b == [] {
      assert a + b == a;
    } else {
      var init := b[..|b| - 1];
      assert (a + b)[..|a + b| - 1] == a + init;
      DeliveryCountAppend(a, init, handler, key);
    }
  }

  lemma {:induction false} OneRoundCount(handlers: nat, e: Event, handler: nat, key: Key)
    ensures DeliveryCount(ToEveryHandler(handlers, e), handler, key) ==
            if handler < handlers && EventKey(e) == key then 1 else 0
  {
    if handlers > 0 {
      var all := ToEveryHandler(handlers, e);
      assert all[..|all| - 1] == ToEveryHandler(handlers - 1, e);
      OneRoundCount(handlers - 1, e, handler, key);
    }
  }

  /** Every handler is called for a key exactly as often as the key is stored. */
  lemma {:induction false} DeliveredAsStored(handlers: nat, events: seq<Event>, handler: nat, key: Key)
    ensures DeliveryCount(DeliveriesOf(handlers, events), handler, key) ==
            if handler < handlers then KeyCount(events, key) else 0
  {
    if events != [] {
      var init, last := events[..|events| - 1], events[|events| - 1];
      DeliveredAsStored(handlers, init, handler, key);
      OneRoundCount(handlers, last, handler, key);
      DeliveryCountAppend(DeliveriesOf(handlers, init), ToEveryHandler(handlers, last), handler, key);
    }
  }

  /** A sync as it happened: the chain it saw, the range it was given, and what its handlers did. */
  datatype Round = Round(chain: Chain, from: int, upTo: int, throws: Throws)

  function AfterRounds(cfg: Config, rounds: seq<Round>): State {
    if rounds == [] then EMPTY
    else
      var last := rounds[|rounds| - 1];
      SyncOutcome(cfg, last.chain, AfterRounds(cfg, rounds[..|rounds| - 1]), last.from, last.upTo, last.throws).state
  }

  /** The calls that a round set out to make and did not, because an earlier one threw. */
  function LostBy(cfg: Config, s: State, r: Round): seq<Delivery> {
    var calls := CallsOf(cfg, r.chain, s, r.from, r.upTo);
    calls[CallsMade(r.throws, |calls|)..]
  }

  function LostIn(cfg: Config, rounds: seq<Round>): seq<Delivery> {
    if rounds == [] then []
    else
      var init := rounds[..|rounds| - 1];
      LostIn(cfg, init) + LostBy(cfg, AfterRounds(cfg, init), rounds[|rounds| - 1])
  }

  /** Some round's range held a wanted log with this key. */
  ghost predicate Seen(cfg: Config, rounds: seq<Round>, key: Key) {
    exists r, log :: r in rounds && OnChain(r.chain, log) && r.from <= log.blockNumber <= r.upTo && Wanted(cfg, log)
                     && KeyOf(log) == key
  }

  ghost predicate DistinctAddresses(cfg: Config) {
    forall i, j | 0 <= i < j < |cfg.contracts| :: cfg.contracts[i].address != cfg.contracts[j].address
  }

  lemma RoundKeepsKeysUnique(cfg: Config, r: Round, s: State)
    requires WellFormed(r.chain) && DistinctAddresses(cfg) && StoredAtMostOnce(s)
    ensures StoredAtMostOnce(Sync(cfg, r.chain, s, r.from, r.upTo))
  {
    forall log | Missing(cfg, r.chain, KeysOf(s.events), r.from, r.upTo, log)
      ensures Copies(cfg.contracts, log.address, |cfg.contracts|) == 1
    {
      OneCopy(cfg.contracts, log.address, |cfg.contracts|);
      FoundExactly(cfg.contracts, log.address);
    }
    SyncKeepsKeysUniqueExactly(cfg, r.chain, s, r.from, r.upTo);
  }

  lemma {:induction false} RoundsKeepKeysUnique(cfg: Config, rounds: seq<Round>)
    requires DistinctAddresses(cfg) && forall r | r in rounds :: WellFormed(r.chain)
    ensures StoredAtMostOnce(AfterRounds(cfg, rounds))
  {
    if rounds != [] {
      var init, last := rounds[..|rounds| - 1], rounds[|rounds| - 1];
      RoundsKeepKeysUnique(cfg, init);
      RoundKeepsKeysUnique(cfg, last, AfterRounds(cfg, init));
    }
  }

  lemma {:induction false} StoredIffSeen(cfg: Config, rounds: seq<Round>, key: Key)
    requires forall r | r in rounds :: WellFormed(r.chain)
    ensures key in KeysOf(AfterRounds(cfg, rounds).events) <==> Seen(cfg, rounds, key)
  {
    if rounds != [] {
      var init, last := rounds[..|rounds| - 1], rounds[|rounds| - 1];
      StoredIffSeen(cfg, init, key);
      SyncStores(cfg, last.chain, AfterRounds(cfg, init), last.from, last.upTo, key);
      assert forall r :: r in rounds <==> r in init || r == last;
    }
  }

  /** One round: the calls it made and the calls it lost are those of the events it added. */
  lemma RoundIsAccountedFor(cfg: Config, s: State, r: Round)
    ensures var t := SyncOutcome(cfg, r.chain, s, r.from, r.upTo, r.throws).state;
            && var calls := CallsOf(cfg, r.chain, s, r.from, r.upTo);
            var made := CallsMade(r.throws, |calls|);
            && t.deliveries == s.deliveries + calls[..made] && LostBy(cfg, s, r) == calls[made..]
            && DeliveriesOf(cfg.handlers, t.events) == DeliveriesOf(cfg.handlers, s.events) + calls
  {
    var added := NewEvents(cfg, Fetch(cfg, r.chain, r.from, r.upTo), KeysOf(s.events));
    var calls := DeliveriesOf(cfg.handlers, added);
    DeliveriesAppend(cfg.handlers, s.events, added);
    NoThrowMakesAll(r.throws, |calls|);
    if Fetch(cfg, r.chain, r.from, r.upTo) == [] {
      assert s.events + added == s.events;
    }
  }

  /** The calls made and the calls lost are all of the calls, each once, and none was lost exactly
      when all were made, and in order. */
  ghost predicate MadeOrLost(made: seq<Delivery>, lost: seq<Delivery>, all: seq<Delivery>) {
    multiset(made) + multiset(lost) == multiset(all) && (made == all <==> lost == [])
  }

  lemma AccountsGrow(made: seq<Delivery>, lost: seq<Delivery>, all: seq<Delivery>, calls: seq<Delivery>, n: nat)
    requires MadeOrLost(made, lost, all) && n <= |calls|
    ensures MadeOrLost(made + calls[..n], lost + calls[n..], all + calls)
  {
    assert calls == calls[..n] + calls[n..];
    assert |multiset(made)| + |multiset(lost)| == |multiset(made) + multiset(lost)|;
    assert |made| + |lost| == |all|;
    assert |made + calls[..n]| + |lost + calls[n..]| == |all + calls|;
  }

  /** Nothing is called for that was not stored, and whatever was stored was called for or lost. */
  lemma {:induction false} DeliveriesMirrorStorage(cfg: Config, rounds: seq<Round>)
    ensures var s := AfterRounds(cfg, rounds);
            MadeOrLost(s.deliveries, LostIn(cfg, rounds), DeliveriesOf(cfg.handlers, s.events))
  {
    if rounds != [] {
      var init, last := rounds[..|rounds| - 1], rounds[|rounds| - 1];
      DeliveriesMirrorStorage(cfg, init);
      RoundKeepsAccounts(cfg, AfterRounds(cfg, init), LostIn(cfg, init), last);
    }
  }

  lemma RoundKeepsAccounts(cfg: Config, s: State, lost: seq<Delivery>, r: Round)
    requires MadeOrLost(s.deliveries, lost, DeliveriesOf(cfg.handlers, s.events))
    ensures var t := SyncOutcome(cfg, r.chain, s, r.from, r.upTo, r.throws).state;
            MadeOrLost(t.deliveries, lost + LostBy(cfg, s, r), DeliveriesOf(cfg.handlers, t.events))
  {
    var calls := CallsOf(cfg, r.chain, s, r.from, r.upTo);
    RoundIsAccountedFor(cfg, s, r);
    AccountsGrow(s.deliveries, lost, DeliveriesOf(cfg.handlers, s.events), calls, CallsMade(r.throws, |calls|));
  }

  /** Each handler was called for each key exactly as often as the key is stored. */
  ghost predicate CalledAsStored(handlers: nat, events: seq<Event>, made: seq<Delivery>) {
    forall handler: nat, key ::
      DeliveryCount(made, handler, key) == if handler < handlers then KeyCount(events, key) else 0
  }

  /** That is so exactly when no call is outstanding. */
  lemma NothingOpenExactly(handlers: nat, events: seq<Event>, made: seq<Delivery>, open: seq<Delivery>)
    requires multiset(made) + multiset(open) == multiset(DeliveriesOf(handlers, events))
    ensures CalledAsStored(handlers, events, made) <==> open == []
  {
    if open == [] {
      forall handler: nat, key
        ensures DeliveryCount(made, handler, key) == if handler < handlers then KeyCount(events, key) else 0
      {
        CallsAreCounted(handlers, events, made, open, handler, key);
      }
    } else {
      var d := open[|open| - 1];
      LastIsCounted(open);
      CallsAreCounted(handlers, events, made, open, d.handler, EventKey(d.event));
      assert DeliveryCount(made, d.handler, EventKey(d.event)) !=
             if d.handler < handlers then KeyCount(events, EventKey(d.event)) else 0;
    }
  }

  /** Over any sequence of syncs of arbitrary, overlapping or repeated ranges, even of different
      chains: with distinct contract addresses, a key is stored once if some range held it and
      never otherwise, and every handler is called for it that often less the calls that were lost
      to a throwing handler. So each is called exactly once, for everything seen, if and only if
      nothing was lost. */
  lemma ExactlyOnce(cfg: Config, rounds: seq<Round>, handler: nat, key: Key)
    requires DistinctAddresses(cfg) && forall r | r in rounds :: WellFormed(r.chain)
    ensures var s, lost := AfterRounds(cfg, rounds), LostIn(cfg, rounds);
            && KeyCount(s.events, key) == (if Seen(cfg, rounds, key) then 1 else 0)
            && DeliveryCount(s.deliveries, handler, key) + DeliveryCount(lost, handler, key)
               == (if handler < cfg.handlers && Seen(cfg, rounds, key) then 1 else 0)
            && (CalledAsStored(cfg.handlers, s.events, s.deliveries) <==> lost == [])
  {
    var s, lost := AfterRounds(cfg, rounds), LostIn(cfg, rounds);
    RoundsKeepKeysUnique(cfg, rounds);
    DeliveriesMirrorStorage(cfg, rounds);
    StoredIffSeen(cfg, rounds, key);
    hide AfterRounds, LostIn, Seen, CalledAsStored, DeliveriesOf;
    KeyCountPositive(s.events, key);
    CallsAreCounted(cfg.handlers, s.events, s.deliveries, lost, handler, key);
    NothingOpenExactly(cfg.handlers, s.events, s.deliveries, lost);
  }

  /** Calls made and calls outstanding that make up those of the stored events count up to them. */
  lemma CallsAreCounted(handlers: nat, events: seq<Event>, made: seq<Delivery>, open: seq<Delivery>, handler: nat,
                        key: Key)
    requires multiset(made) + multiset(open) == multiset(DeliveriesOf(handlers, events))
    ensures DeliveryCount(made, handler, key) + DeliveryCount(open, handler, key) ==
            if handler < handlers then KeyCount(events, key) else 0
  {
    DeliveryCountAppend(made, open, handler, key);
    assert multiset(made + open) == multiset(made) + multiset(open);
    DeliveryCountPermuted(made + open, DeliveriesOf(handlers, events), handler, key);
    DeliveredAsStored(handlers, events, handler, key);
  }

  lemma {:induction false} DeliveryCountPermuted(a: seq<Delivery>, b: seq<Delivery>, handler: nat, key: Key)
    requires multiset(a) == multiset(b)
    ensures DeliveryCount(a, handler, key) == DeliveryCount(b, handler, key)
    decreases |a|
  {
    if a == [] {
      assert multiset(b) == multiset{};
      assert b == [];
    } else {
      var init, d := a[..|a| - 1], a[|a| - 1];
      assert a == init + [d];
      assert d in multiset(b);
      var k :| 0 <= k < |b| && b[k] == d;
      var before, after := b[..k], b[k + 1..];
      assert b == before + [d] + after;
      OneLess(init, d, before, after);
      DeliveryCountPermuted(init, before + after, handler, key);
      DeliveryCountAppend(before, after, handler, key);
      DeliveryCountAppend(before + [d], after, handler, key);
      DeliveryCountAppend(before, [d], handler, key);
      DeliveryCountAppend(init, [d], handler, key);
    }
  }

  lemma LastIsCounted(deliveries: seq<Delivery>)
    requires deliveries != []
    ensures var d := deliveries[|deliveries| - 1]; DeliveryCount(deliveries, d.handler, EventKey(d.event)) > 0
  {
  }

  lemma {:induction false} OneCopy(contracts: seq<Contract>, address: Address, c: nat)
    requires c <= |contracts|
    requires forall i, j | 0 <= i < j < |contracts| :: contracts[i].address != contracts[j].address
    ensures Copies(contracts, address, c) == if exists i :: 0 <= i < c && contracts[i].address == address then 1 else 0
  {
    if c > 0 {
      OneCopy(contracts, address, c - 1);
    }
  }

  // ---------------------------------------------------------------------------
  // Re-syncs
  // ---------------------------------------------------------------------------

  lemma {:induction false} NewEventsAppend(cfg: Config, a: seq<Log>, b: seq<Log>, dups: set<Key>)
    ensures NewEvents(cfg, a + b, dups) == NewEvents(cfg, a, dups) + NewEvents(cfg, b, dups)
  {
    if b == [] {
      assert a + b == a;
    } else {
      assert (a + b)[..|a + b| - 1] == a + b[..|b| - 1];
      NewEventsAppend(cfg, a, b[..|b| - 1], dups);
    }
  }

  lemma NewEventsCongruent(cfg: Config, a: seq<Log>, b: seq<Log>, x: seq<Log>, y: seq<Log>, dups: set<Key>)
    requires NewEvents(cfg, a, dups) == NewEvents(cfg, b, dups) && NewEvents(cfg, x, dups) == NewEvents(cfg, y, dups)
    ensures NewEvents(cfg, a + x, dups) == NewEvents(cfg, b + y, dups)
  {
    NewEventsAppend(cfg, a, x, dups);
    NewEventsAppend(cfg, b, y, dups);
  }

  lemma {:induction false} QuerySplits(chain: Chain, address: Address, from: int, mid: int, upTo: int)
    requires from <= mid + 1 && mid <= upTo
    ensures GetLogs(chain, address, from, upTo) ==
            GetLogs(chain, address, from, mid) + GetLogs(chain, address, mid + 1, upTo)
    decreases upTo - from
  {
    if mid < upTo {
      QuerySplits(chain, address, from, mid, upTo - 1);
      Regroup(GetLogs(chain, address, from, mid), GetLogs(chain, address, mid + 1, upTo - 1),
              LogsOfBlock(chain, address, upTo));
    }
  }

  lemma Regroup(a: seq<Log>, b: seq<Log>, c: seq<Log>)
    ensures (a + b) + c == a + (b + c)
  {
  }

  /** Every wanted log of the range is stored. */
  ghost predicate AllKnown(cfg: Config, chain: Chain, from: int, upTo: int, stored: set<Key>) {
    forall log :: !Missing(cfg, chain, stored, from, upTo, log)
  }

  lemma KnownQueryAddsNothing(cfg: Config, chain: Chain, address: Address, from: int, upTo: int, dups: set<Key>)
    requires WellPlaced(chain) && AllKnown(cfg, chain, from, upTo, dups)
    ensures NewEvents(cfg, GetLogs(chain, address, from, upTo), dups) == []
  {
    var logs := GetLogs(chain, address, from, upTo);
    var added := NewEvents(cfg, logs, dups);
    if added != [] {
      NewEventsHas(cfg, logs, dups, added[0]);
      var log :| log in logs && KeyOf(log) !in dups && EventOf(cfg, log) == Some(added[0]);
      GetLogsHas(chain, address, from, upTo, log);
      assert Missing(cfg, chain, dups, from, upTo, log);
      assert false;
    }
  }

  lemma KnownQueryPart(cfg: Config, chain: Chain, address: Address, from: int, mid: int, upTo: int, dups: set<Key>)
    requires WellPlaced(chain) && from <= mid + 1 && mid <= upTo && AllKnown(cfg, chain, from, mid, dups)
    ensures NewEvents(cfg, GetLogs(chain, address, from, upTo), dups) ==
            NewEvents(cfg, GetLogs(chain, address, mid + 1, upTo), dups)
  {
    QuerySplits(chain, address, from, mid, upTo);
    KnownQueryAddsNothing(cfg, chain, address, from, mid, dups);
    NewEventsAppend(cfg, GetLogs(chain, address, from, mid), GetLogs(chain, address, mid + 1, upTo), dups);
  }

  lemma {:induction false} KnownPart(cfg: Config, chain: Chain, from: int, mid: int, upTo: int, dups: set<Key>, c: nat)
    requires c <= |cfg.contracts|
    requires forall i | 0 <= i < |cfg.contracts| ::
               NewEvents(cfg, GetLogs(chain, cfg.contracts[i].address, from, upTo), dups) ==
               NewEvents(cfg, GetLogs(chain, cfg.contracts[i].address, mid + 1, upTo), dups)
    ensures NewEvents(cfg, FetchUpTo(cfg, chain, from, upTo, c), dups) ==
            NewEvents(cfg, FetchUpTo(cfg, chain, mid + 1, upTo, c), dups)
    decreases c
  {
    if c > 0 {
      var address := cfg.contracts[c - 1].address;
      KnownPart(cfg, chain, from, mid, upTo, dups, c - 1);
      NewEventsCongruent(cfg, FetchUpTo(cfg, chain, from, upTo, c - 1), FetchUpTo(cfg, chain, mid + 1, upTo, c - 1),
                         GetLogs(chain, address, from, upTo), GetLogs(chain, address, mid + 1, upTo), dups);
    }
  }

  lemma StoredPartAddsNothing(cfg: Config, chain: Chain, s: State, from: int, mid: int, upTo: int)
    requires WellFormed(chain) && from <= mid + 1 && mid <= upTo
    requires AllKnown(cfg, chain, from, mid, KeysOf(s.events))
    ensures var low, exact := Sync(cfg, chain, s, from, upTo), Sync(cfg, chain, s, mid + 1, upTo);
            low.events == exact.events && low.deliveries == exact.deliveries
  {
    var dups := KeysOf(s.events);
    forall i | 0 <= i < |cfg.contracts| {
      KnownQueryPart(cfg, chain, cfg.contracts[i].address, from, mid, upTo, dups);
    }
    KnownPart(cfg, chain, from, mid, upTo, dups, |cfg.contracts|);
  }

  /** A sync stores nothing from below its range. */
  lemma BelowRangeNotStored(cfg: Config, chain: Chain, s: State, from: int, upTo: int, log: Log)
    requires WellFormed(chain) && OnChain(chain, log) && log.blockNumber < from && KeyOf(log) !in KeysOf(s.events)
    ensures KeyOf(log) !in KeysOf(Sync(cfg, chain, s, from, upTo).events)
  {
    SyncStores(cfg, chain, s, from, upTo, KeyOf(log));
    forall other | Missing(cfg, chain, KeysOf(s.events), from, upTo, other) ensures KeyOf(other) != KeyOf(log) {
      if KeyOf(other) == KeyOf(log) {
        KeyIdentifiesLog(chain, other, log);
        assert false;
      }
    }
  }

  lemma SyncStoresOne(cfg: Config, chain: Chain, s: State, from: int, upTo: int, log: Log)
    requires WellFormed(chain) && Missing(cfg, chain, KeysOf(s.events), from, upTo, log)
    ensures KeyOf(log) in KeysOf(Sync(cfg, chain, s, from, upTo).events)
  {
    SyncStores(cfg, chain, s, from, upTo, KeyOf(log));
  }

  /** A wanted log below `mid + 1` that is not stored is stored by the lower sync alone. */
  lemma UnstoredPartShows(cfg: Config, chain: Chain, s: State, from: int, mid: int, upTo: int, log: Log)
    requires WellFormed(chain) && mid <= upTo && Missing(cfg, chain, KeysOf(s.events), from, mid, log)
    ensures KeyOf(log) in KeysOf(Sync(cfg, chain, s, from, upTo).events)
    ensures KeyOf(log) !in KeysOf(Sync(cfg, chain, s, mid + 1, upTo).events)
  {
    hide Sync, KeysOf, WellFormed;
    SyncStoresOne(cfg, chain, s, from, upTo, log);
    BelowRangeNotStored(cfg, chain, s, mid + 1, upTo, log);
  }

  /** When starting a sync lower is harmless, exactly: it stores and delivers what starting at
      `mid + 1` does if and only if everything wanted up to `mid` is stored. */
  lemma LowerStartIsHarmless(cfg: Config, chain: Chain, s: State, from: int, mid: int, upTo: int)
    requires WellFormed(chain) && from <= mid + 1 && mid <= upTo
    ensures var low, exact := Sync(cfg, chain, s, from, upTo), Sync(cfg, chain, s, mid + 1, upTo);
            low.events == exact.events && low.deliveries == exact.deliveries
            <==> AllKnown(cfg, chain, from, mid, KeysOf(s.events))
  {
    hide Sync, KeysOf, WellFormed;
    if AllKnown(cfg, chain, from, mid, KeysOf(s.events)) {
      StoredPartAddsNothing(cfg, chain, s, from, mid, upTo);
    } else {
      var log :| Missing(cfg, chain, KeysOf(s.events), from, mid, log);
      UnstoredPartShows(cfg, chain, s, from, mid, upTo, log);
    }
  }

  /** Repeating a range that is wholly stored changes neither events nor deliveries. */
  lemma ResyncIsIdle(cfg: Config, chain: Chain, s: State, from: int, upTo: int)
    requires WellFormed(chain) && AllKnown(cfg, chain, from, upTo, KeysOf(s.events))
    ensures var t := Sync(cfg, chain, s, from, upTo);
            t.events == s.events && t.deliveries == s.deliveries
  {
    if from <= upTo {
      LowerStartIsHarmless(cfg, chain, s, from, upTo, upTo);
      NoBlocksNoLogs(cfg, chain, upTo + 1, upTo, |cfg.contracts|);
    } else {
      NoBlocksNoLogs(cfg, chain, from, upTo, |cfg.contracts|);
    }
  }

  lemma {:induction false} NoBlocksNoLogs(cfg: Config, chain: Chain, from: int, upTo: int, c: nat)
    requires upTo < from && c <= |cfg.contracts|
    ensures FetchUpTo(cfg, chain, from, upTo, c) == []
  {
    if c > 0 {
      NoBlocksNoLogs(cfg, chain, from, upTo, c - 1);
      assert GetLogs(chain, cfg.contracts[c - 1].address, from, upTo) == [];
    }
  }

  // ---------------------------------------------------------------------------
  // The checkpoint and the order of calls
  // ---------------------------------------------------------------------------

  /** Call number `k` is of handler `k % handlers`, for event `k / handlers`. */
  lemma {:induction false} CallsInOrder(handlers: nat, events: seq<Event>, i: nat, h: nat)
    requires i < |events| && h < handlers
    ensures var calls := DeliveriesOf(handlers, events);
            && |calls| == handlers * |events| && i * handlers + h < |calls|
            && calls[i * handlers + h] == Delivery(h, events[i])
  {
    var n := |events| - 1;
    CallsLength(handlers, events);
    CallsLength(handlers, events[..n]);
    assert handlers * |events| == handlers * n + handlers;
    if i < n {
      CallsInOrder(handlers, events[..n], i, h);
    } else {
      assert i * handlers == handlers * n;
    }
  }

  lemma {:induction false} CallsLength(handlers: nat, events: seq<Event>)
    ensures |DeliveriesOf(handlers, events)| == handlers * |events|
  {
    if events != [] {
      CallsLength(handlers, events[..|events| - 1]);
      assert handlers * |events| == handlers * (|events| - 1) + handlers;
    }
  }

  /** `log` is in the range, at the address of contract `i`. */
  ghost predicate LoggedBy(cfg: Config, chain: Chain, from: int, upTo: int, i: int, log: Log) {
    0 <= i < |cfg.contracts| && OnChain(chain, log) && from <= log.blockNumber <= upTo
    && log.address == cfg.contracts[i].address
  }

  ghost predicate HasLogs(cfg: Config, chain: Chain, from: int, upTo: int, i: int) {
    exists log :: LoggedBy(cfg, chain, from, upTo, i, log)
  }

  lemma {:induction false} LastOfQuery(chain: Chain, address: Address, from: int, upTo: int)
    requires WellPlaced(chain) && GetLogs(chain, address, from, upTo) != []
    ensures var logs := GetLogs(chain, address, from, upTo);
            forall log | log in logs :: log.blockNumber <= logs[|logs| - 1].blockNumber
    decreases upTo - from
  {
    var logs, below := GetLogs(chain, address, from, upTo), GetLogs(chain, address, from, upTo - 1);
    var block := LogsOfBlock(chain, address, upTo);
    assert logs == below + block;
    forall log | log in logs ensures log.blockNumber <= upTo {
      GetLogsHas(chain, address, from, upTo, log);
    }
    if block == [] {
      LastOfQuery(chain, address, from, upTo - 1);
    } else {
      assert logs[|logs| - 1] == block[|block| - 1];
      LogsOfBlockHas(chain, address, upTo, block[|block| - 1]);
    }
  }

  lemma {:induction false} LastOfBatch(cfg: Config, chain: Chain, from: int, upTo: int, i: nat, c: nat)
    requires i < c <= |cfg.contracts| && GetLogs(chain, cfg.contracts[i].address, from, upTo) != []
    requires forall j | i < j < c :: GetLogs(chain, cfg.contracts[j].address, from, upTo) == []
    ensures var logs := FetchUpTo(cfg, chain, from, upTo, c);
            var query := GetLogs(chain, cfg.contracts[i].address, from, upTo);
            logs != [] && logs[|logs| - 1] == query[|query| - 1]
    decreases c
  {
    hide GetLogs;
    var before := FetchUpTo(cfg, chain, from, upTo, c - 1);
    var query := GetLogs(chain, cfg.contracts[c - 1].address, from, upTo);
    assert FetchUpTo(cfg, chain, from, upTo, c) == before + query;
    if i < c - 1 {
      LastOfBatch(cfg, chain, from, upTo, i, c - 1);
      assert query == [];
    }
  }

  lemma QueryIsEmptyExactly(cfg: Config, chain: Chain, from: int, upTo: int, i: nat)
    requires WellPlaced(chain) && i < |cfg.contracts|
    ensures GetLogs(chain, cfg.contracts[i].address, from, upTo) == [] <==> !HasLogs(cfg, chain, from, upTo, i)
  {
    var logs := GetLogs(chain, cfg.contracts[i].address, from, upTo);
    if logs != [] {
      assert logs[0] in logs;
      GetLogsHas(chain, cfg.contracts[i].address, from, upTo, logs[0]);
      assert LoggedBy(cfg, chain, from, upTo, i, logs[0]);
    }
    if log :| LoggedBy(cfg, chain, from, upTo, i, log) {
      GetLogsHas(chain, cfg.contracts[i].address, from, upTo, log);
    }
  }

  lemma {:induction false} NoLogsAtAll(cfg: Config, chain: Chain, from: int, upTo: int, c: nat)
    requires c <= |cfg.contracts| && forall i | 0 <= i < c :: GetLogs(chain, cfg.contracts[i].address, from, upTo) == []
    ensures FetchUpTo(cfg, chain, from, upTo, c) == []
  {
    if c > 0 {
      NoLogsAtAll(cfg, chain, from, upTo, c - 1);
      assert GetLogs(chain, cfg.contracts[c - 1].address, from, upTo) == [];
    }
  }

  /** Without a tracked log in the range the checkpoint is its end and carries no hash. */
  lemma CheckpointWithoutLogs(cfg: Config, chain: Chain, s: State, from: int, upTo: int)
    requires WellPlaced(chain) && forall i :: !HasLogs(cfg, chain, from, upTo, i)
    ensures Sync(cfg, chain, s, from, upTo).checkpoint == Some(Checkpoint(upTo, ""))
  {
    forall i | 0 <= i < |cfg.contracts| ensures GetLogs(chain, cfg.contracts[i].address, from, upTo) == [] {
      QueryIsEmptyExactly(cfg, chain, from, upTo, i);
    }
    NoLogsAtAll(cfg, chain, from, upTo, |cfg.contracts|);
  }

  /** Otherwise it is the highest block of the range with a log of the last configured contract that
      has one there, which need not be the highest block with a tracked log. */
  lemma CheckpointAtLastLog(cfg: Config, chain: Chain, s: State, from: int, upTo: int, i: nat) returns (last: Log)
    requires WellPlaced(chain) && HasLogs(cfg, chain, from, upTo, i)
    requires forall j | i < j :: !HasLogs(cfg, chain, from, upTo, j)
    ensures LoggedBy(cfg, chain, from, upTo, i, last)
    ensures forall log | LoggedBy(cfg, chain, from, upTo, i, log) :: log.blockNumber <= last.blockNumber
    ensures Sync(cfg, chain, s, from, upTo).checkpoint == Some(Checkpoint(last.blockNumber, last.blockHash))
  {
    hide GetLogs, NewEvents, KeysOf, Wanted, DeliveriesOf, WellPlaced;
    var address := cfg.contracts[i].address;
    var query := GetLogs(chain, address, from, upTo);
    forall j | i <= j < |cfg.contracts|
      ensures GetLogs(chain, cfg.contracts[j].address, from, upTo) == [] <==> !HasLogs(cfg, chain, from, upTo, j)
    {
      QueryIsEmptyExactly(cfg, chain, from, upTo, j);
    }
    last := query[|query| - 1];
    assert last in query;
    GetLogsHas(chain, address, from, upTo, last);
    forall log | LoggedBy(cfg, chain, from, upTo, i, log) ensures log.blockNumber <= last.blockNumber {
      GetLogsHas(chain, address, from, upTo, log);
      LastOfQuery(chain, address, from, upTo);
    }
    LastOfBatch(cfg, chain, from, upTo, i, |cfg.contracts|);
  }

  // ---------------------------------------------------------------------------
  // The reorg check
  // ---------------------------------------------------------------------------

  /** `b` is one of the blocks that the check looks at. */
  predicate InWindow(chain: Chain, cp: Checkpoint, maxDepth: int, b: int) {
    0 <= b < |chain| && cp.blockNumber - maxDepth < b <= cp.blockNumber
  }

  /** Exactly what the check answers: the highest block of its window whose hash is not the
      checkpoint's, and nothing only if the whole window carries that one hash. */
  lemma {:induction false} ReorgCheckExactly(chain: Chain, cp: Checkpoint, maxDepth: int, depth: nat)
    ensures var r := ReorgBlock(chain, cp, maxDepth, depth);
            var top := cp.blockNumber - depth;
            && (r.None? <==> forall b | InWindow(chain, cp, maxDepth, b) && b <= top :: chain[b].hash == cp.blockHash)
            && (r.Some? ==> InWindow(chain, cp, maxDepth, r.value) && chain[r.value].hash != cp.blockHash
                            && forall b | InWindow(chain, cp, maxDepth, b) && r.value < b <= top ::
                                 chain[b].hash == cp.blockHash)
    decreases maxDepth - depth
  {
    if depth < maxDepth && cp.blockNumber - depth >= 0 {
      ReorgCheckExactly(chain, cp, maxDepth, depth + 1);
    }
  }

  /** On a chain that still holds the checkpoint's block, the check does not answer "no reorg"
      unless its window is a single block: otherwise it names the block below the checkpoint. */
  lemma UnchangedChainAnswer(chain: Chain, cp: Checkpoint, maxDepth: int)
    requires 0 <= cp.blockNumber < |chain| && chain[cp.blockNumber].hash == cp.blockHash
    requires forall a, b | 0 <= a < b < |chain| :: chain[a].hash != chain[b].hash
    ensures ReorgBlock(chain, cp, maxDepth, 0) ==
            if maxDepth >= 2 && cp.blockNumber >= 1 then Some(cp.blockNumber - 1) else None
  {
    ReorgCheckExactly(chain, cp, maxDepth, 0);
    if maxDepth >= 2 && cp.blockNumber >= 1 {
      assert InWindow(chain, cp, maxDepth, cp.blockNumber - 1);
    }
  }

  /** After a batch without logs the checkpoint carries no hash, and the check names its own block. */
  lemma HashlessCheckpointAnswer(chain: Chain, cp: Checkpoint, maxDepth: int)
    requires 0 <= cp.blockNumber < |chain| && cp.blockHash == "" && maxDepth >= 1
    requires forall b | 0 <= b < |chain| :: chain[b].hash != ""
    ensures ReorgBlock(chain, cp, maxDepth, 0) == Some(cp.blockNumber)
  {
    ReorgCheckExactly(chain, cp, maxDepth, 0);
    assert InWindow(chain, cp, maxDepth, cp.blockNumber);
  }

  lemma NoBlocksNoChange(cfg: Config, chain: Chain, s: State, from: int, upTo: int)
    requires upTo < from
    ensures var t := Sync(cfg, chain, s, from, upTo); t.events == s.events && t.deliveries == s.deliveries
  {
    NoBlocksNoLogs(cfg, chain, from, upTo, |cfg.contracts|);
  }

  /** The sync of `taken` stores and delivers what the sync of `plain` does. */
  ghost predicate SameEffect(cfg: Config, chain: Chain, s: State, taken: (int, int), plain: (int, int)) {
    var a, b := Sync(cfg, chain, s, taken.0, taken.1), Sync(cfg, chain, s, plain.0, plain.1);
    a.events == b.events && a.deliveries == b.deliveries
  }

  /** When the sync that the check leads to is harmless, exactly: it stores and delivers what the
      plain sync above the checkpoint does if and only if the blocks it goes back over are wholly
      stored. It goes back at most as far as its window. */
  lemma FalseReorgIsHarmless(cfg: Config, chain: Chain, s: State, blockNumber: nat)
    requires WellFormed(chain) && s.checkpoint.Some?
    requires LiveRange(cfg, chain, s.checkpoint, blockNumber).Some?
    ensures var range := LiveRange(cfg, chain, s.checkpoint, blockNumber).value;
            var cp := s.checkpoint.value.blockNumber;
            && (range.0 == cp + 1 || (0 <= range.0 <= cp && cp - cfg.maxReorgDepth < range.0))
            && (SameEffect(cfg, chain, s, range, (cp + 1, blockNumber))
                <==> AllKnown(cfg, chain, range.0, Least(cp, blockNumber), KeysOf(s.events)))
  {
    hide Sync, KeysOf, WellFormed, LiveRange;
    var range := LiveRange(cfg, chain, s.checkpoint, blockNumber).value;
    var cp := s.checkpoint.value.blockNumber;
    LiveRangeBounds(cfg, chain, s.checkpoint.value, blockNumber);
    var mid := Least(cp, blockNumber);
    if cp > blockNumber {
      NoBlocksNoChange(cfg, chain, s, cp + 1, blockNumber);
      NoBlocksNoChange(cfg, chain, s, mid + 1, blockNumber);
    }
    if range.0 > mid + 1 {
      NoBlocksNoChange(cfg, chain, s, range.0, blockNumber);
    } else {
      LowerStartIsHarmless(cfg, chain, s, range.0, mid, blockNumber);
    }
  }

  function Least(a: int, b: int): int {
    if a < b then a else b
  }

  lemma ReorgNamesBlockBelow(cfg: Config, chain: Chain, cp: Checkpoint, blockNumber: nat)
    requires 1 <= cp.blockNumber < |chain| && cfg.maxReorgDepth >= 2
    requires chain[cp.blockNumber].hash == cp.blockHash != chain[cp.blockNumber - 1].hash
    ensures LiveRange(cfg, chain, Some(cp), blockNumber) == Some((cp.blockNumber - 1, blockNumber))
  {
    assert ReorgBlock(chain, cp, cfg.maxReorgDepth, 0) == ReorgBlock(chain, cp, cfg.maxReorgDepth, 1);
  }

  lemma FirstSyncStoresNothingBelow(cfg: Config, chain: Chain, upTo: int, log: Log)
    requires WellFormed(chain) && OnChain(chain, log) && log.blockNumber < cfg.startBlock
    ensures KeyOf(log) !in KeysOf(Sync(cfg, chain, EMPTY, cfg.startBlock, upTo).events)
  {
    BelowRangeNotStored(cfg, chain, EMPTY, cfg.startBlock, upTo, log);
  }

  /** It is not harmless at the start block. After a first sync whose last log was in that block, a
      window of two blocks makes the check name the block below; and a log of that block, from before
      the start, is stored by the sync that this leads to and not by the plain one. */
  lemma ReorgReachesBelowStart(cfg: Config, chain: Chain, upTo: int, blockNumber: nat, log: Log)
    requires WellFormed(chain) && 1 <= cfg.startBlock <= blockNumber && cfg.startBlock < |chain|
             && cfg.maxReorgDepth >= 2
    requires Sync(cfg, chain, EMPTY, cfg.startBlock, upTo).checkpoint ==
             Some(Checkpoint(cfg.startBlock, chain[cfg.startBlock].hash))
    requires chain[cfg.startBlock - 1].hash != chain[cfg.startBlock].hash
    requires OnChain(chain, log) && log.blockNumber == cfg.startBlock - 1 && Wanted(cfg, log)
    ensures var s := Sync(cfg, chain, EMPTY, cfg.startBlock, upTo);
            && LiveRange(cfg, chain, s.checkpoint, blockNumber) == Some((cfg.startBlock - 1, blockNumber))
            && KeyOf(log) in KeysOf(Sync(cfg, chain, s, cfg.startBlock - 1, blockNumber).events)
            && KeyOf(log) !in KeysOf(Sync(cfg, chain, s, cfg.startBlock + 1, blockNumber).events)
  {
    hide Sync, KeysOf, WellFormed;
    var s := Sync(cfg, chain, EMPTY, cfg.startBlock, upTo);
    ReorgNamesBlockBelow(cfg, chain, s.checkpoint.value, blockNumber);
    FirstSyncStoresNothingBelow(cfg, chain, upTo, log);
    UnstoredPartShows(cfg, chain, s, cfg.startBlock - 1, cfg.startBlock, blockNumber, log);
  }

  /** Such a first sync exists: a wanted log in block 0, another in the start block 1. */
  lemma BelowStartHappens() returns (cfg: Config, chain: Chain, log: Log)
    ensures WellFormed(chain) && cfg.startBlock == 1 < |chain| && cfg.maxReorgDepth == 2
    ensures Sync(cfg, chain, EMPTY, 1, 1).checkpoint == Some(Checkpoint(1, chain[1].hash))
    ensures chain[0].hash != chain[1].hash && OnChain(chain, log) && log.blockNumber == 0 && Wanted(cfg, log)
    ensures KeyOf(log) !in KeysOf(Sync(cfg, chain, EMPTY, 1, 1).events)
  {
    cfg := Config(1, [Contract("C", "0xc", [])], 1, 2, 1, (abi: seq<string>, l: Log) => Some(Decoded("E", map[])));
    log := Log("0xc", 0, "b0", "t0", 0, "");
    var first := Log("0xc", 1, "b1", "t1", 0, "");
    chain := [Block("b0", [log]), Block("b1", [first])];
    OneLogAtAddress(first);
    assert GetLogs(chain, "0xc", 1, 0) == [];
    assert GetLogs(chain, "0xc", 1, 1) == [first];
    assert FetchUpTo(cfg, chain, 1, 1, 0) == [];
    assert Fetch(cfg, chain, 1, 1) == [first];
    assert log.txHash[1] != first.txHash[1];
    FirstSyncStoresNothingBelow(cfg, chain, 1, log);
  }

  lemma OneLogAtAddress(log: Log)
    ensures AtAddress([log], log.address) == [log]
  {
    assert [log][1..] == [];
  }

  lemma LiveRangeBounds(cfg: Config, chain: Chain, cp: Checkpoint, blockNumber: nat)
    requires LiveRange(cfg, chain, Some(cp), blockNumber).Some?
    ensures var range := LiveRange(cfg, chain, Some(cp), blockNumber).value;
            && range.1 == blockNumber
            && (range.0 == cp.blockNumber + 1
                || (0 <= range.0 <= cp.blockNumber && cp.blockNumber - cfg.maxReorgDepth < range.0))
  {
    ReorgCheckExactly(chain, cp, cfg.maxReorgDepth, 0);
  }

  /** The block that the check names on this chain: the highest of its window with another hash. */
  ghost predicate Named(chain: Chain, cp: Checkpoint, maxDepth: int, b: int) {
    InWindow(chain, cp, maxDepth, b) && chain[b].hash != cp.blockHash
    && forall higher | InWindow(chain, cp, maxDepth, higher) && b < higher :: chain[higher].hash == cp.blockHash
  }

  /** Which range a new block makes the indexer sync, exactly: from the block that the check names,
      or else from the block above the checkpoint, or from block 1 without one; up to the new block. */
  lemma LiveRangeExactly(cfg: Config, chain: Chain, checkpoint: Option<Checkpoint>, blockNumber: nat)
    ensures checkpoint.None? ==>
              LiveRange(cfg, chain, checkpoint, blockNumber) ==
              if blockNumber >= 1 then Some((1, blockNumber)) else None
    ensures checkpoint.Some? ==>
              var cp := checkpoint.value;
              && (forall b | Named(chain, cp, cfg.maxReorgDepth, b) ::
                    LiveRange(cfg, chain, checkpoint, blockNumber) == Some((b, blockNumber)))
              && ((forall b :: !Named(chain, cp, cfg.maxReorgDepth, b)) ==>
                    LiveRange(cfg, chain, checkpoint, blockNumber) ==
                    if cp.blockNumber < blockNumber then Some((cp.blockNumber + 1, blockNumber)) else None)
  {
    if checkpoint.Some? {
      var cp := checkpoint.value;
      ReorgCheckExactly(chain, cp, cfg.maxReorgDepth, 0);
      var r := ReorgBlock(chain, cp, cfg.maxReorgDepth, 0);
      if r.Some? {
        assert Named(chain, cp, cfg.maxReorgDepth, r.value);
      }
    }
  }

  // ---------------------------------------------------------------------------
  // Historical sync
  // ---------------------------------------------------------------------------

  /** The last block a historical sync reaches: one short when the range is a whole number of batches. */
  function HistoricalEnd(from: int, safeLatest: int): int
    requires from < safeLatest
  {
    if (safeLatest - from) % 1000 == 0 then safeLatest - 1 else safeLatest
  }

  /** The batches are contiguous, hold at most 1000 blocks each, and cover exactly the range. */
  lemma {:induction false} BatchesPartition(from: int, safeLatest: int)
    requires from < safeLatest
    ensures var bs := Batches(from, safeLatest);
            && bs != [] && bs[0].0 == from && bs[|bs| - 1].1 == HistoricalEnd(from, safeLatest)
            && (forall k | 0 <= k < |bs| :: bs[k].0 <= bs[k].1 < bs[k].0 + 1000)
            && (forall k | 0 <= k < |bs| - 1 :: bs[k + 1].0 == bs[k].1 + 1 == bs[k].0 + 1000)
    decreases safeLatest - from
  {
    var bs := Batches(from, safeLatest);
    if from + BATCH_SIZE < safeLatest {
      BatchesPartition(from + BATCH_SIZE, safeLatest);
      var rest := Batches(from + BATCH_SIZE, safeLatest);
      assert bs == [(from, from + BATCH_SIZE - 1)] + rest;
      assert forall k | 1 <= k < |bs| :: bs[k] == rest[k - 1];
      assert bs[|bs| - 1] == rest[|rest| - 1];
    } else {
      assert Batches(from + BATCH_SIZE, safeLatest) == [];
      assert |bs| == 1;
    }
  }

  predicate InSomeBatch(batches: seq<(int, int)>, b: int) {
    exists k :: 0 <= k < |batches| && batches[k].0 <= b <= batches[k].1
  }

  /** So a block is in some batch exactly when it is between the start and that last block. */
  lemma {:induction false} BatchesCover(from: int, safeLatest: int, b: int)
    requires from < safeLatest
    ensures InSomeBatch(Batches(from, safeLatest), b) <==> from <= b <= HistoricalEnd(from, safeLatest)
    decreases safeLatest - from
  {
    var bs, rest := Batches(from, safeLatest), Batches(from + BATCH_SIZE, safeLatest);
    assert bs == [bs[0]] + rest;
    assert InSomeBatch(bs, b) <==> bs[0].0 <= b <= bs[0].1 || InSomeBatch(rest, b) by {
      assert forall k | 0 <= k < |rest| :: bs[k + 1] == rest[k];
      assert forall k | 1 <= k < |bs| :: bs[k] == rest[k - 1];
    }
    if from + BATCH_SIZE < safeLatest {
      BatchesCover(from + BATCH_SIZE, safeLatest, b);
    }
  }

  /** A historical sync begins at its checkpoint, or at the configured block without one or at block 0. */
  lemma HistoricalResumes(cfg: Config, checkpoint: Option<Checkpoint>, safeLatest: int)
    ensures var bs := Batches(HistoricalStart(cfg, checkpoint), safeLatest);
            bs != [] ==> bs[0].0 == if checkpoint.Some? && checkpoint.value.blockNumber != 0
                                    then checkpoint.value.blockNumber else cfg.startBlock
  {
  }

  /** Once the indexer is found stopped, no further batch is synced. */
  lemma {:induction false} StoppedSyncsNoMore(cfg: Config, chain: Chain, s: State, batches: seq<(int, int)>,
                                              weather: Weather, k: nat, m: nat)
    requires m <= |batches| && !weather.running(k + m)
    ensures SyncBatches(cfg, chain, s, batches, weather, k) == SyncBatches(cfg, chain, s, batches[..m], weather, k)
    ensures m == 0 ==> SyncBatches(cfg, chain, s, batches, weather, k) == Outcome(s, true)
    decreases |batches|
  {
    if m > 0 && weather.running(k) {
      hide SyncOutcome;
      var o := SyncOutcome(cfg, chain, s, batches[0].0, batches[0].1, weather.throws(k));
      assert batches[..m][0] == batches[0] && batches[..m][1..] == batches[1..][..m - 1];
      if o.completed {
        StoppedSyncsNoMore(cfg, chain, o.state, batches[1..], weather, k + 1, m - 1);
      }
    }
  }
}
