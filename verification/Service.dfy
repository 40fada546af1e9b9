/** The program from its start: relay and cache over any sequence of packets, timeouts and prunes. */
module Service {
  import opened Common
  import opened Messages
  import opened Responses
  import opened CacheSpec
  import opened CacheTheorems
  import CacheKey
  import opened Cache
  import opened Blocking
  import opened Answers
  import TableLoad
  import Relay
  import opened Replies
  import opened Conversation
  import opened Server
  import opened Dispatch

  /** What happens next: a packet is received, the loop comes to its timeouts, or the pruning thread
      runs. A query's names are checked at `now`, the answer is read at `later`; `fails` says whether
      sending it upstream fails. */
  datatype Event =
    | Arrives(packet: Packet, source: NetEnd, fails: bool, now: int, later: int, prunes: Schedule)
    | TimeoutsDue
    | PruneDue(now: int)

  ghost predicate Fit(e: Event, useCache: bool) {
    e.Arrives? ==> WellFormed(e.packet) && Acceptable(e.packet, useCache) && e.now <= e.later
  }

  /** Fit to go on: both sides valid and apart, the cache sound, everything sent so far proper. */
  ghost predicate Ready(server: DnsServer, cache: DnsCache)
    reads server, server.factory, server.factory.timers, server.Repr(), server.factory.sessions.Values
    reads cache, cache.Nodes()
  {
    && server.Valid() && cache.Valid() && Apart(server, cache)
    && SoundItems(cache.Items()) && Proper(server.View())
  }

  // ---------- single events ----------

  lemma HandledIsFed(s: seq<Item>, packet: Packet, source: NetEnd, fails: bool, now: int, later: int, step: Relay.Step)
    requires WellFormed(packet) && SoundItems(s) && (IsQuery(packet.header.flags) ==> Readable(packet))
    requires Handles(Arrival(packet, source, Answered(s, packet, now, later), fails), step)
    ensures WellFed(step)
  {
    hide WellFormed, SoundItems, LocalAnswer;
    if IsQuery(packet.header.flags) && LocalAnswer(s, packet, now, later).Some? {
      LocalAnswerIsSound(s, packet, now, later);
    }
  }

  lemma SoundIsCounted(s: seq<Item>)
    requires SoundItems(s)
    ensures Counted(s)
  {
  }

  /** One packet, by `Dispatch.HandleDnsPacket`. */
  method TakePacket(server: DnsServer, cache: DnsCache, e: Event, useCache: bool) returns (ghost steps: seq<Relay.Step>)
    requires e.Arrives? && Fit(e, useCache) && Ready(server, cache)
    modifies server, server.Repr(), cache, cache.Nodes()
    ensures Ready(server, cache) && server.OnlyGrew() && cache.OnlyGrew()
    ensures server.RanTo(old(server.View()), steps) && forall step | step in steps :: WellFed(step)
  {
    hide WellFormed, SoundItems, Proper, DnsServer.View, DnsServer.Valid, DnsServer.Sound, DnsServer.Took, DnsCache.Valid, DnsCache.Items;
    hide Acceptable, CacheAfter, Answered, Handles, WellFed, Counted, Relay.Apply, Relay.Enabled;
    SoundWhenValid(server);
    InvWhenValid(server);
    ghost var before, s, c := server.View(), cache.Items(), cache.capacity;
    SoundIsCounted(s);
    ghost var step := HandleDnsPacket(server, cache, e.packet, e.source, useCache, e.fails, e.now, e.later, e.prunes);
    SoundWhenValid(server);
    CacheHasRoom(cache);
    QueryIsReadable(e, useCache);
    HandledIsFed(s, e.packet, e.source, e.fails, e.now, e.later, step);
    CacheStaysSound(c, s, e.packet, step.ResponseArrives?, useCache, e.now, e.later, e.prunes);
    TookIsRun(server, before, step);
    steps := [step];
  }

  lemma QueryIsReadable(e: Event, useCache: bool)
    requires e.Arrives? && Fit(e, useCache)
    ensures IsQuery(e.packet.header.flags) ==> Readable(e.packet)
  {
  }

  lemma CacheHasRoom(cache: DnsCache)
    requires cache.Valid()
    ensures cache.capacity >= 1
  {
  }

  lemma TookIsRun(server: DnsServer, before: Relay.State, step: Relay.Step)
    requires server.Sound() && server.Took(before, step)
    requires Relay.Inv(server.Cfg(), before) && Proper(before) && WellFed(step)
    ensures server.RanTo(before, [step]) && Proper(server.View())
  {
    hide DnsServer.View, DnsServer.Sound, Relay.Inv, Proper, WellFed, Relay.Apply, Relay.Enabled;
    StepKeepsProper(server.Cfg(), before, step);
    server.Steps(before, step);
    Relay.RunExtends(server.Cfg(), before, [], step);
    assert [] + [step] == [step];
  }

  lemma InvWhenValid(server: DnsServer)
    requires server.Valid()
    ensures server.Sound() && server.Cfg().Valid() && Relay.Inv(server.Cfg(), server.View())
  {
  }

  /** No open session's time is up at the last reading of the clock. */
  ghost predicate NoneLeft(server: DnsServer)
    reads server, server.factory, server.factory.sessions.Values
  {
    forall id | id in server.factory.sessions ::
      server.factory.clock < server.factory.sessions[id].timestamp + server.requestTimeout
  }

  /** `batch_timeout` leaves the cache alone. */
  method RunTimeouts(server: DnsServer, cache: DnsCache) returns (ghost steps: seq<Relay.Step>)
    requires Ready(server, cache)
    modifies server, server.Repr()
    ensures Ready(server, cache) && server.OnlyGrew() && cache.OnlyGrew() && server.Cfg().Valid()
    ensures server.RanTo(old(server.View()), steps) && forall step | step in steps :: WellFed(step)
    ensures Relay.AllDue(server.Cfg(), old(server.View()), steps, 0, server.requestTimeout, server.factory.clock)
    ensures NoneLeft(server)
  {
    hide WellFormed, SoundItems, Proper, DnsServer.View, DnsServer.Valid, DnsServer.Sound, DnsServer.RanTo, DnsCache.Valid, DnsCache.Items;
    hide WellFed, Relay.AllDue;
    InvWhenValid(server);
    ghost var before := server.View();
    steps := BatchTimeout(server, cache);
    SoundWhenValid(server);
    TimeoutsAreFed(steps);
    RanIsProper(server, before, steps);
  }

  method BatchTimeout(server: DnsServer, cache: DnsCache) returns (ghost steps: seq<Relay.Step>)
    requires server.Valid() && cache.Valid() && Apart(server, cache)
    modifies server, server.Repr()
    ensures server.Valid() && cache.Valid() && Apart(server, cache)
    ensures server.OnlyGrew() && cache.Nodes() == old(cache.Nodes()) && cache.Items() == old(cache.Items())
    ensures server.RanTo(old(server.View()), steps) && forall step | step in steps :: Relay.IsTimeout(step)
    ensures server.Cfg().Valid() && NoneLeft(server)
    ensures Relay.AllDue(server.Cfg(), old(server.View()), steps, 0, server.requestTimeout, server.factory.clock)
  {
    hide DnsCache.Items, DnsCache.Valid, DnsServer.View, DnsServer.Valid, DnsServer.Sound, DnsServer.RanTo, Relay.AllDue;
    SoundWhenValid(server);
    steps := server.BatchTimeout();
    SoundWhenValid(server);
    cache.Untouched();
  }

  lemma RanIsProper(server: DnsServer, before: Relay.State, steps: seq<Relay.Step>)
    requires server.Sound() && server.RanTo(before, steps) && server.Cfg().Valid()
    requires Relay.Inv(server.Cfg(), before) && Proper(before) && forall step | step in steps :: WellFed(step)
    ensures Proper(server.View())
  {
    hide DnsServer.View, DnsServer.Sound, Relay.Inv, Proper, WellFed;
    RunKeepsProper(server.Cfg(), before, steps);
  }

  /** The pruning thread leaves the server alone. */
  method RunPrune(server: DnsServer, cache: DnsCache, now: int) returns (ghost steps: seq<Relay.Step>)
    requires Ready(server, cache)
    modifies cache, cache.Nodes()
    ensures Ready(server, cache) && server.OnlyGrew() && cache.OnlyGrew()
    ensures server.RanTo(old(server.View()), steps) && forall step | step in steps :: WellFed(step)
  {
    hide SoundItems, Proper, DnsCache.Items, DnsCache.Valid, DnsServer.View, DnsServer.Valid, DnsServer.Sound, DnsServer.RanTo, Prune;
    SoundWhenValid(server);
    ghost var view, s := server.View(), cache.Items();
    CacheHasRoom(cache);
    cache.Prune(now);
    assert server.Valid();
    SoundWhenValid(server);
    assert server.View() == view;
    PruneKeepsSound(s, now);
    RanNowhere(server);
    steps := [];
  }

  lemma PruneKeepsSound(s: seq<Item>, now: int)
    requires SoundItems(s)
    ensures SoundItems(Prune(s, now))
  {
  }

  // ---------- all events ----------

  lemma RanNowhere(server: DnsServer)
    requires server.Valid()
    ensures server.Sound() && server.RanTo(server.View(), [])
  {
    hide DnsServer.View, Relay.Inv;
  }

  lemma RanOn(server: DnsServer, start: Relay.State, steps: seq<Relay.Step>, before: Relay.State, more: seq<Relay.Step>)
    requires server.Sound() && |server.upstreams| > 0 && server.RanTo(before, more)
    requires Relay.CanRun(server.Cfg(), start, steps) && Relay.Run(server.Cfg(), start, steps) == before
    ensures server.RanTo(start, steps + more)
  {
    hide DnsServer.View, DnsServer.Sound, Relay.Apply, Relay.Enabled;
    Relay.RunConcat(server.Cfg(), start, steps, more);
  }

  lemma RanMeans(server: DnsServer, start: Relay.State, steps: seq<Relay.Step>)
    requires server.Sound() && server.RanTo(start, steps)
    ensures |server.upstreams| > 0 && Relay.CanRun(server.Cfg(), start, steps)
    ensures Relay.Run(server.Cfg(), start, steps) == server.View()
  {
  }

  /**
   Whatever comes in, in whatever order: relay and cache stay valid, the cache fit to answer with, and
   what is sent proper. That holds of every query answered from the cache, refused, failed or relayed.
   */
  method Serve(server: DnsServer, cache: DnsCache, events: seq<Event>, useCache: bool) returns (ghost steps: seq<Relay.Step>)
    requires Ready(server, cache) && forall e | e in events :: Fit(e, useCache)
    modifies server, server.Repr(), cache, cache.Nodes()
    ensures Ready(server, cache) && Counted(cache.Items()) && server.OnlyGrew() && cache.OnlyGrew()
    ensures server.RanTo(old(server.View()), steps) && forall step | step in steps :: WellFed(step)
  {
    hide Ready, Fit, WellFed, DnsServer.View, DnsServer.Sound, DnsServer.RanTo, DnsCache.Items;
    ReadyIsSound(server, cache);
    RanNowhere(server);
    ghost var start := server.View();
    steps := [];
    for i := 0 to |events|
      invariant Ready(server, cache) && server.Sound() && server.OnlyGrew() && cache.OnlyGrew()
      invariant server.RanTo(start, steps) && forall step | step in steps :: WellFed(step)
    {
      RanMeans(server, start, steps);
      ghost var before := server.View();
      var more := ServeOne(server, cache, events[i], useCache);
      RanOn(server, start, steps, before, more);
      steps := steps + more;
    }
    ReadyIsSound(server, cache);
  }

  lemma ReadyIsSound(server: DnsServer, cache: DnsCache)
    requires Ready(server, cache)
    ensures server.Valid() && server.Sound() && Counted(cache.Items())
  {
    SoundIsCounted(cache.Items());
  }

  method ServeOne(server: DnsServer, cache: DnsCache, e: Event, useCache: bool) returns (ghost steps: seq<Relay.Step>)
    requires Ready(server, cache) && Fit(e, useCache)
    modifies server, server.Repr(), cache, cache.Nodes()
    ensures Ready(server, cache) && server.Sound() && server.OnlyGrew() && cache.OnlyGrew()
    ensures server.RanTo(old(server.View()), steps) && forall step | step in steps :: WellFed(step)
  {
    hide Ready, Fit, WellFed, DnsServer.View, DnsServer.Sound, DnsServer.RanTo, DnsServer.OnlyGrew, DnsCache.OnlyGrew, DnsCache.Items;
    ReadyIsSound(server, cache);
    if e.Arrives? {
      steps := TakePacket(server, cache, e, useCache);
    } else if e.TimeoutsDue? {
      steps := RunTimeouts(server, cache);
    } else {
      steps := RunPrune(server, cache, e.now);
    }
    ReadyIsSound(server, cache);
  }

  // ---------- the table in front of clients ----------

  lemma FoundIsHeld(s: seq<Item>, k: Key, now: int)
    requires Lookup(s, k, now).Some?
    ensures exists e :: e in s && e.key == k && !Expired(e, now) && e.value == Lookup(s, k, now).value
  {
    hide Expired;
    assert Entry(s, k) in s;
  }

  ghost predicate Loadable(c: nat, records: seq<Record>) {
    && 1 <= c && |TableLoad.Keys(records)| <= c
    && forall r | r in records :: r.ttl == 4294967295 && TableLoad.Fits(r)
  }

  /** What the table answers under a name of its own. */
  lemma TableHolds(c: nat, records: seq<Record>, loaded: int, r: Record, now: int)
    requires Loadable(c, records) && r in records
    ensures var group := TableLoad.Those(records, TableLoad.FullyNamed(r.rtype, r.name));
            r in group &&
            Lookup(Run(c, [], TableLoad.Puts(records, loaded)), CacheKey.Print(1, r.rtype, r.name), now) ==
            Some(CacheValue(|group| % 0x1_0000, 0, 0, group))
  {
    hide TableLoad.Keys, TableLoad.Fits, TableLoad.Puts, TableLoad.Those, Run, Lookup, CacheKey.Print;
    TableLoad.CutNames(records, r);
    TableLoad.TableIsGrouped(c, records, loaded, r.rtype, r.name, now);
    TableLoad.InThose(records, TableLoad.FullyNamed(r.rtype, r.name), r);
  }

  /** A query of class IN for a name and type of the table that nothing blocks is answered, without error,
      with exactly the records of that name and type. */
  lemma TableIsServed(c: nat, records: seq<Record>, loaded: int, r: Record, query: Packet, now: int, later: int)
    requires Loadable(c, records) && r in records
    requires Readable(query) && query.header.flags / 0x1000 == 0 && query.questions == [Question(r.name, r.rtype, 1)]
    requires !exists e :: e in Run(c, [], TableLoad.Puts(records, loaded)) && BlocksName(e, query.questions[0], now)
    ensures var group := TableLoad.Those(records, TableLoad.FullyNamed(r.rtype, r.name));
            var answer := LocalAnswer(Run(c, [], TableLoad.Puts(records, loaded)), query, now, later);
            answer.Some? && Responds(answer.value, query, 0) && answer.value.records == group &&
            answer.value.header.answers == |group| % 0x1_0000
  {
    hide TableLoad.Keys, TableLoad.Fits, TableLoad.Puts, TableLoad.Those, Run, Lookup, CacheKey.Print, Expired, LocalAnswer, BlocksName;
    var s, k := Run(c, [], TableLoad.Puts(records, loaded)), CacheKey.Print(1, r.rtype, r.name);
    RunSane(c, TableLoad.Puts(records, loaded));
    TableHolds(c, records, loaded, r, later);
    FoundIsHeld(s, k, later);
    var e :| e in s && e.key == k && !Expired(e, later) && e.value == Lookup(s, k, later).value;
    assert AnswersName(e, query.questions[0], later);
    LocalAnswerExact(s, query, now, later);
  }

  /** An A or AAAA record of the table whose bytes past the first are all zero has its name, and every name
      below it, refused with code 3. */
  lemma TableBlocks(c: nat, records: seq<Record>, loaded: int, r: Record, query: Packet, i: nat, now: int, later: int)
    requires Loadable(c, records) && r in records
    requires (r.rtype == 1 || r.rtype == 28) && forall j | 1 <= j < |r.rdata| :: r.rdata[j] == 0
    requires Readable(query) && query.header.flags / 0x1000 == 0 && query.header.qcount == 1
    requires query.questions[0].qtype == r.rtype && query.questions[0].qclass == 1
    requires i < Depth(query.questions[0].qname) && Ancestor(query.questions[0].qname, i) == r.name
    ensures var answer := LocalAnswer(Run(c, [], TableLoad.Puts(records, loaded)), query, now, later);
            answer.Some? && answer.value.header.flags % 0x10 == 3 && answer.value.records == []
  {
    hide TableLoad.Keys, TableLoad.Fits, TableLoad.Puts, TableLoad.Those, Run, Lookup, CacheKey.Print, Expired, LocalAnswer, Depth, Ancestor;
    var s, k := Run(c, [], TableLoad.Puts(records, loaded)), CacheKey.Print(1, r.rtype, r.name);
    RunSane(c, TableLoad.Puts(records, loaded));
    TableHolds(c, records, loaded, r, now);
    FoundIsHeld(s, k, now);
    var e :| e in s && e.key == k && !Expired(e, now) && e.value == Lookup(s, k, now).value;
    assert r in e.value.rrs && ZeroAddress(r);
    assert BlocksName(e, query.questions[0], now);
    LocalAnswerExact(s, query, now, later);
  }

  // ---------- from the start ----------

  /** What the table puts into the cache is sound, if its records are plain and no group outgrows the
      16-bit count. */
  lemma TableIsSound(c: nat, records: seq<Record>, now: int)
    requires c >= 1 && forall r | r in records :: PlainRecord(r)
    requires forall k | k in TableLoad.Keys(records) :: |TableLoad.Those(records, TableLoad.Under(k))| < 0x1_0000
    ensures SoundItems(Run(c, [], TableLoad.Puts(records, now)))
  {
    PutsAreSound(records, TableLoad.Keys(records), now);
    RunKeepsSound(c, [], TableLoad.Puts(records, now));
  }

  lemma {:induction false} PutsAreSound(records: seq<Record>, keys: seq<seq<byte>>, now: int)
    requires forall r | r in records :: PlainRecord(r)
    requires forall k | k in keys :: |TableLoad.Those(records, TableLoad.Under(k))| < 0x1_0000
    ensures forall op | op in TableLoad.PutsOf(records, keys, now) :: op.PutOp? && SoundValue(op.value)
    decreases |keys|
  {
    hide PlainRecord, TableLoad.Those;
    if keys != [] {
      var n := |keys| - 1;
      assert keys[n] in keys && forall k | k in keys[..n] :: k in keys;
      PutsAreSound(records, keys[..n], now);
      GroupIsPlain(records, keys[n]);
    }
  }

  lemma GroupIsPlain(records: seq<Record>, k: seq<byte>)
    requires forall r | r in records :: PlainRecord(r)
    ensures forall r | r in TableLoad.Those(records, TableLoad.Under(k)) :: PlainRecord(r)
  {
  }

  method LoadedCache(capacity: nat, records: seq<Record>, now: int) returns (cache: DnsCache)
    requires capacity >= 1 && forall r | r in records :: PlainRecord(r)
    requires forall k | k in TableLoad.Keys(records) :: |TableLoad.Those(records, TableLoad.Under(k))| < 0x1_0000
    ensures cache.Valid() && SoundItems(cache.Items())
    ensures cache.Items() == Run(capacity, [], TableLoad.Puts(records, now))
    ensures fresh(cache) && fresh(cache.Nodes())
  {
    hide DnsCache.Items, DnsCache.Valid, SoundItems, Run, PlainRecord, TableLoad.Those, TableLoad.Keys;
    cache := new DnsCache(capacity);
    TableLoad.LoadTable(cache, records, now);
    TableIsSound(capacity, records, now);
  }

  /** The start of the program: a new server, and a new cache filled from the table. */
  method Start(upstreams: seq<NetEnd>, requestTimeout: int, maxRetry: int, capacity: nat, records: seq<Record>, now: int)
    returns (server: DnsServer, cache: DnsCache)
    requires upstreams != [] && maxRetry <= 127 && capacity >= 1
    requires forall r | r in records :: PlainRecord(r)
    requires forall k | k in TableLoad.Keys(records) :: |TableLoad.Those(records, TableLoad.Under(k))| < 0x1_0000
    ensures Ready(server, cache) && server.View() == Relay.INITIAL
    ensures cache.Items() == Run(capacity, [], TableLoad.Puts(records, now))
    ensures fresh(server) && fresh(server.Repr()) && fresh(cache) && fresh(cache.Nodes())
    ensures server.upstreams == upstreams && server.maxRetry == maxRetry && server.requestTimeout == requestTimeout
  {
    hide DnsServer.View, DnsServer.Valid, DnsServer.Sound, DnsCache.Items, DnsCache.Valid, Ready, Apart, SoundItems, Run, PlainRecord, TableLoad.Those, TableLoad.Keys;
    cache := LoadedCache(capacity, records, now);
    ghost var items := cache.Items();
    server := new DnsServer(upstreams, requestTimeout, maxRetry);
    assert cache.Valid() && cache.Items() == items;
    SoundWhenValid(server);
    StartsReady(server, cache);
  }

  lemma StartsReady(server: DnsServer, cache: DnsCache)
    requires server.Valid() && server.Sound() && server.View() == Relay.INITIAL
    requires cache.Valid() && SoundItems(cache.Items())
    requires cache !in server.Repr() && forall e | e in cache.Nodes() :: e !in server.Repr()
    ensures Ready(server, cache)
  {
    hide DnsServer.View, DnsServer.Valid, DnsServer.Sound, DnsCache.Valid, DnsCache.Items, SoundItems;
    InitialIsProper();
  }

  /** The life of the program: its start, then every event. */
  method Life(upstreams: seq<NetEnd>, requestTimeout: int, maxRetry: int, capacity: nat, records: seq<Record>,
              started: int, events: seq<Event>, useCache: bool)
    returns (server: DnsServer, cache: DnsCache, ghost steps: seq<Relay.Step>)
    requires upstreams != [] && maxRetry <= 127 && capacity >= 1
    requires forall r | r in records :: PlainRecord(r)
    requires forall k | k in TableLoad.Keys(records) :: |TableLoad.Those(records, TableLoad.Under(k))| < 0x1_0000
    requires forall e | e in events :: Fit(e, useCache)
    ensures Ready(server, cache) && Counted(cache.Items())
    ensures server.RanTo(Relay.INITIAL, steps) && forall step | step in steps :: WellFed(step)
    ensures forall a | a in server.View().log :: Explained(Relay.Config(|upstreams|, maxRetry), server.View(), steps, a)
  {
    hide Ready, Fit, WellFed, DnsServer.View, DnsServer.RanTo, DnsServer.Sound, DnsServer.Repr, DnsCache.Items, DnsCache.Nodes, PlainRecord, Explained;
    server, cache := Start(upstreams, requestTimeout, maxRetry, capacity, records, started);
    steps := Serve(server, cache, events, useCache);
    ReadyIsSound(server, cache);
    RanMeans(server, Relay.INITIAL, steps);
    ConfigIs(server);
    RepliesExplained(server.Cfg(), steps);
  }

  lemma ConfigIs(server: DnsServer)
    requires server.Valid()
    ensures server.Cfg().Valid() && server.Cfg() == Relay.Config(|server.upstreams|, server.maxRetry)
  {
  }
}
