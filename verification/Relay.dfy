/**
 The relay as a state machine: src/server/server.c over the session table and timer heap of
 src/server/session_factory.c and the id pool of src/dns/id_factory.c. Every query gets a serial
 number when it is handled; the log records what is sent for which query.
 */
module Relay {
  import opened Common
  import opened Messages
  import opened Responses

  /** An open session; `packet` is the stored relay packet. */
  datatype Sess = Sess(query: nat, clientId: uint16, clientEnd: NetEnd, retries: nat, packet: Packet, timestamp: int)

  datatype Action =
    | Reply(query: nat, packet: Packet, clientEnd: NetEnd)
    | Send(query: nat, packet: Packet, upstream: nat)
    | Drop(query: nat)

  /** A query as it came in, and from where. */
  datatype Origin = Origin(asked: Packet, clientEnd: NetEnd)

  /** `used`: ids taken from the pool. `timers`: the live timer of each key, naming its session's query. */
  datatype State = State(used: set<uint16>, table: map<uint16, Sess>, timers: map<uint16, nat>,
                         origins: seq<Origin>, log: seq<Action>, next: nat)

  datatype Config = Config(upstreams: nat, maxRetry: int)
  {
    /** `retry_times` is a `char`. */
    ghost predicate Valid() {
      upstreams > 0 && maxRetry <= 127
    }

    ghost function Retries(): nat {
      if maxRetry < 0 then 0 else maxRetry
    }
  }

  /** Local answers and relays leave the machine to the resolver and the network to choose. */
  datatype Step =
    | AnswerLocally(origin: Origin, response: Packet)
    | AnswerExhausted(origin: Origin)
    | RelayFails(origin: Origin, relayId: uint16)
    | RelayOpens(origin: Origin, relayId: uint16, now: int)
    | ResponseArrives(relayId: uint16, packet: Packet)
    | ResponseUnmatched(relayId: uint16)
    | TimeoutRetries(relayId: uint16, now: int)
    | TimeoutGivesUp(relayId: uint16)

  ghost predicate Enabled(c: Config, s: State, step: Step) {
    match step
    case AnswerLocally(o, response) => response.header.id == o.asked.header.id
    case AnswerExhausted(_) => forall id: uint16 :: id in s.used
    case RelayFails(_, id) => id !in s.used
    case RelayOpens(_, id, _) => id !in s.used
    case ResponseArrives(id, packet) => id in s.table && packet.header.id == id
    case ResponseUnmatched(id) => id !in s.table
    case TimeoutRetries(id, _) => id in s.table && s.table[id].retries < c.maxRetry
    case TimeoutGivesUp(id) => id in s.table && s.table[id].retries >= c.maxRetry
  }

  function Advance(c: Config, next: nat): nat
    requires c.upstreams > 0
  {
    if next + 1 >= c.upstreams then 0 else next + 1
  }

  /** `session_close` under a key, then `id_free`. */
  function Close(s: State, key: uint16, relayId: uint16): State {
    s.(timers := s.timers - {key}, table := s.table - {key}, used := s.used - {relayId})
  }

  /** What a step sends, or gives up sending. */
  ghost function Appended(c: Config, s: State, step: Step): seq<Action>
    requires Enabled(c, s, step)
  {
    var q := |s.origins|;
    match step
    case AnswerLocally(o, response) => [Reply(q, response, o.clientEnd)]
    case AnswerExhausted(o) => [Reply(q, MakeInnerError(o.asked), o.clientEnd)]
    case RelayFails(o, id) => [Send(q, WithId(o.asked, id), s.next), Drop(q)]
    case RelayOpens(o, id, _) => [Send(q, WithId(o.asked, id), s.next)]
    case ResponseArrives(id, packet) => [ReplyWith(s.table[id], packet)]
    case ResponseUnmatched(_) => []
    case TimeoutRetries(id, _) => [Send(s.table[id].query, s.table[id].packet, s.next)]
    case TimeoutGivesUp(id) => [Failure(s.table[id])]
  }

  /** The upstream's response under the client's id. */
  function ReplyWith(session: Sess, packet: Packet): Action {
    Reply(session.query, WithId(packet, session.clientId), session.clientEnd)
  }

  function Failure(session: Sess): Action {
    Reply(session.query, MakeInnerError(WithId(session.packet, session.clientId)), session.clientEnd)
  }

  ghost function Apply(c: Config, s: State, step: Step): State
    requires c.upstreams > 0 && Enabled(c, s, step)
  {
    var q, s1 := |s.origins|, s.(log := s.log + Appended(c, s, step));
    match step
    case AnswerLocally(o, _) => s1.(origins := s.origins + [o])
    case AnswerExhausted(o) => s1.(origins := s.origins + [o])
    case RelayFails(o, _) => s1.(origins := s.origins + [o], next := Advance(c, s.next))
    case RelayOpens(o, id, now) =>
      s1.(origins := s.origins + [o],
          used := s.used + {id},
          table := s.table[id := Sess(q, o.asked.header.id, o.clientEnd, 0, WithId(o.asked, id), now)],
          timers := s.timers[id := q],
          next := Advance(c, s.next))
    case ResponseArrives(id, _) => Close(s1, s.table[id].packet.header.id, id)
    case ResponseUnmatched(_) => s1
    case TimeoutRetries(id, now) =>
      var session := s.table[id];
      s1.(table := s.table[id := session.(retries := session.retries + 1, timestamp := now)],
          timers := s.timers[session.packet.header.id := session.query],
          next := Advance(c, s.next))
    case TimeoutGivesUp(id) => Close(s1, id, id)
  }

  /** A relay put together: its send, then either the drop or the session. */
  lemma RelayedState(c: Config, s: State, o: Origin, id: uint16, now: int)
    requires c.upstreams > 0 && id !in s.used
    ensures var q, out := |s.origins|, WithId(o.asked, id);
            var sent := s.(log := s.log + [Send(q, out, s.next)], next := Advance(c, s.next), origins := s.origins + [o]);
            Enabled(c, s, RelayFails(o, id)) && Enabled(c, s, RelayOpens(o, id, now)) &&
            Apply(c, s, RelayFails(o, id)) == sent.(log := sent.log + [Drop(q)]) &&
            Apply(c, s, RelayOpens(o, id, now)) ==
            sent.(used := s.used + {id}, timers := s.timers[id := q],
                  table := s.table[id := Sess(q, o.asked.header.id, o.clientEnd, 0, out, now)])
  {
    hide WithId;
  }

  // ---------- counting in the log ----------

  function Replies(log: seq<Action>, q: nat): nat {
    if log == [] then 0
    else Replies(log[..|log| - 1], q) + if log[|log| - 1].Reply? && log[|log| - 1].query == q then 1 else 0
  }

  function Drops(log: seq<Action>, q: nat): nat {
    if log == [] then 0
    else Drops(log[..|log| - 1], q) + if log[|log| - 1].Drop? && log[|log| - 1].query == q then 1 else 0
  }

  function Sends(log: seq<Action>, q: nat): nat {
    if log == [] then 0
    else Sends(log[..|log| - 1], q) + if log[|log| - 1].Send? && log[|log| - 1].query == q then 1 else 0
  }

  /** The upstream indices of all sends, in order. */
  function Picks(log: seq<Action>): seq<nat> {
    if log == [] then []
    else Picks(log[..|log| - 1]) + if log[|log| - 1].Send? then [log[|log| - 1].upstream] else []
  }

  function AllReplies(log: seq<Action>): nat {
    if log == [] then 0 else AllReplies(log[..|log| - 1]) + if log[|log| - 1].Reply? then 1 else 0
  }

  function AllDrops(log: seq<Action>): nat {
    if log == [] then 0 else AllDrops(log[..|log| - 1]) + if log[|log| - 1].Drop? then 1 else 0
  }

  lemma LogGrows(log: seq<Action>, a: Action)
    ensures forall q :: Replies(log + [a], q) == Replies(log, q) + if a.Reply? && a.query == q then 1 else 0
    ensures forall q :: Drops(log + [a], q) == Drops(log, q) + if a.Drop? && a.query == q then 1 else 0
    ensures forall q :: Sends(log + [a], q) == Sends(log, q) + if a.Send? && a.query == q then 1 else 0
    ensures Picks(log + [a]) == Picks(log) + if a.Send? then [a.upstream] else []
    ensures AllReplies(log + [a]) == AllReplies(log) + if a.Reply? then 1 else 0
    ensures AllDrops(log + [a]) == AllDrops(log) + if a.Drop? then 1 else 0
  {
    var longer := log + [a];
    assert longer[..|longer| - 1] == log;
  }

  // ---------- what every reachable state satisfies ----------

  /** The ids taken from the pool, the session table's keys, the live timers' keys and the ids in
      the stored packets are one set, each session standing once in each. */
  ghost predicate SameIds(s: State) {
    Together(s.used, s.table, s.timers)
  }

  ghost predicate Together(used: set<uint16>, table: map<uint16, Sess>, timers: map<uint16, nat>) {
    && used == table.Keys == timers.Keys
    && (forall id | id in table :: table[id].packet.header.id == id && timers[id] == table[id].query)
    && (forall i, j | i in table && j in table && i != j :: table[i].query != table[j].query)
  }

  /** Open sessions carry their query with only the id changed, its id and its origin; and their
      retries are within the limit. */
  ghost predicate SessionsGood(c: Config, s: State) {
    forall id | id in s.table ::
      var e := s.table[id];
      e.query < |s.origins| && e.retries <= c.Retries() &&
      var o := s.origins[e.query];
      e.clientEnd == o.clientEnd && e.clientId == o.asked.header.id && e.packet == WithId(o.asked, id)
  }

  ghost predicate IsOpen(s: State, q: nat) {
    exists id :: id in s.table && s.table[id].query == q
  }

  /** Every query is open, answered once or dropped once, and never two of these. */
  ghost predicate OneFate(s: State) {
    forall q: nat ::
      Replies(s.log, q) + Drops(s.log, q) + (if IsOpen(s, q) then 1 else 0) == if q < |s.origins| then 1 else 0
  }

  /** A reply carries the client's own id to the client's own address; what goes upstream, first or
      again, is the client's query with only the id changed. */
  ghost predicate Fits(origins: seq<Origin>, a: Action) {
    a.Drop? || (
      a.query < |origins| &&
      var o := origins[a.query];
      if a.Reply? then a.packet.header.id == o.asked.header.id && a.clientEnd == o.clientEnd
      else a.packet == WithId(o.asked, a.packet.header.id))
  }

  ghost predicate Faithful(s: State) {
    forall a | a in s.log :: Fits(s.origins, a)
  }

  ghost predicate SendsBounded(c: Config, s: State) {
    && (forall q: nat :: Sends(s.log, q) <= if q < |s.origins| then 1 + c.Retries() else 0)
    && (forall id | id in s.table :: Sends(s.log, s.table[id].query) == 1 + s.table[id].retries)
  }

  /** Queries handled = replies attempted + open sessions + relays dropped on send failure. */
  ghost predicate Conserved(s: State) {
    |s.origins| == AllReplies(s.log) + |s.table| + AllDrops(s.log)
  }

  /** The k-th send goes to upstream k modulo their number. */
  ghost predicate RoundRobin(c: Config, s: State)
    requires c.upstreams > 0
  {
    && s.next == |Picks(s.log)| % c.upstreams
    && forall k | 0 <= k < |Picks(s.log)| :: Picks(s.log)[k] == k % c.upstreams
  }

  ghost predicate Inv(c: Config, s: State)
    requires c.Valid()
  {
    && SameIds(s) && SessionsGood(c, s)
    && OneFate(s) && Faithful(s) && SendsBounded(c, s)
    && Conserved(s) && RoundRobin(c, s)
  }

  const INITIAL := State({}, map[], map[], [], [], 0)

  lemma InitialInv(c: Config)
    requires c.Valid()
    ensures Inv(c, INITIAL)
  {
  }

  // ---------- every step keeps it ----------

  lemma {:induction false} LogsGrow(log: seq<Action>, more: seq<Action>)
    ensures forall q :: Replies(log + more, q) == Replies(log, q) + Replies(more, q)
    ensures forall q :: Drops(log + more, q) == Drops(log, q) + Drops(more, q)
    ensures forall q :: Sends(log + more, q) == Sends(log, q) + Sends(more, q)
    ensures Picks(log + more) == Picks(log) + Picks(more)
    ensures AllReplies(log + more) == AllReplies(log) + AllReplies(more)
    ensures AllDrops(log + more) == AllDrops(log) + AllDrops(more)
  {
    if more == [] {
      assert log + more == log;
    } else {
      var most, a := more[..|more| - 1], more[|more| - 1];
      LogsGrow(log, most);
      LogGrows(log + most, a);
      LogGrows(most, a);
      assert more == most + [a] && log + more == log + most + [a];
    }
  }

  lemma Single(a: Action)
    ensures forall q :: Replies([a], q) == if a.Reply? && a.query == q then 1 else 0
    ensures forall q :: Drops([a], q) == if a.Drop? && a.query == q then 1 else 0
    ensures forall q :: Sends([a], q) == if a.Send? && a.query == q then 1 else 0
    ensures Picks([a]) == if a.Send? then [a.upstream] else []
    ensures AllReplies([a]) == (if a.Reply? then 1 else 0) && AllDrops([a]) == if a.Drop? then 1 else 0
  {
    LogGrows([], a);
    assert [] + [a] == [a];
  }

  /** The counts after a step, read off the first thing it sends. */
  lemma Tallies(c: Config, s: State, step: Step)
    requires c.Valid() && Enabled(c, s, step)
    ensures var s', e := Apply(c, s, step), Appended(c, s, step);
            (forall q :: Replies(s'.log, q) == Replies(s.log, q) + if e != [] && e[0].Reply? && e[0].query == q then 1 else 0) &&
            (forall q :: Sends(s'.log, q) == Sends(s.log, q) + if e != [] && e[0].Send? && e[0].query == q then 1 else 0) &&
            (forall q :: Drops(s'.log, q) == Drops(s.log, q) + if step.RelayFails? && q == |s.origins| then 1 else 0) &&
            Picks(s'.log) == Picks(s.log) + (if e != [] && e[0].Send? then [e[0].upstream] else []) &&
            AllReplies(s'.log) == AllReplies(s.log) + (if e != [] && e[0].Reply? then 1 else 0) &&
            AllDrops(s'.log) == AllDrops(s.log) + if step.RelayFails? then 1 else 0
  {
    hide Apply, Appended, Enabled, Replies, Sends, Drops, Picks, AllReplies, AllDrops;
    var e := Appended(c, s, step);
    AppendedShape(c, s, step);
    LogsGrow(s.log, e);
    TallyOf(e);
  }

  lemma TallyOf(e: seq<Action>)
    requires |e| <= 2 && (|e| == 2 ==> e[1].Drop? && !e[0].Drop?) && (|e| == 1 ==> !e[0].Drop?)
    ensures forall q :: Replies(e, q) == if e != [] && e[0].Reply? && e[0].query == q then 1 else 0
    ensures forall q :: Sends(e, q) == if e != [] && e[0].Send? && e[0].query == q then 1 else 0
    ensures forall q :: Drops(e, q) == if |e| == 2 && e[1].query == q then 1 else 0
    ensures Picks(e) == if e != [] && e[0].Send? then [e[0].upstream] else []
    ensures AllReplies(e) == (if e != [] && e[0].Reply? then 1 else 0) && AllDrops(e) == if |e| == 2 then 1 else 0
  {
    if e == [] {
      NothingLogged();
    } else {
      hide Replies, Sends, Drops, Picks, AllReplies, AllDrops;
      Single(e[0]);
      if |e| == 2 {
        LogGrows([e[0]], e[1]);
        assert e == [e[0]] + [e[1]];
      } else {
        assert e == [e[0]];
      }
    }
  }

  lemma NothingLogged()
    ensures forall q :: Replies([], q) == Sends([], q) == Drops([], q) == 0
    ensures Picks([]) == [] && AllReplies([]) == AllDrops([]) == 0
  {
  }

  /** Kind, query and upstream of what a step sends; and what becomes of log, origins and cursor. */
  lemma AppendedShape(c: Config, s: State, step: Step)
    requires c.Valid() && Enabled(c, s, step)
    ensures var s', e, q := Apply(c, s, step), Appended(c, s, step), |s.origins|;
            s'.log == s.log + e &&
            |e| == (if step.RelayFails? then 2 else if step.ResponseUnmatched? then 0 else 1) &&
            (|e| == 2 ==> e[1] == Drop(q)) &&
            (|e| > 0 ==>
               if step.RelayFails? || step.RelayOpens? || step.TimeoutRetries?
               then e[0].Send? && e[0].upstream == s.next && s'.next == Advance(c, s.next)
               else e[0].Reply? && s'.next == s.next) &&
            (|e| == 0 ==> s'.next == s.next) &&
            (|e| > 0 ==> e[0].query == if IsQueryStep(step) then q else s.table[step.relayId].query) &&
            s'.origins == if IsQueryStep(step) then s.origins + [step.origin] else s.origins
  {
    hide WithId, MakeInnerError;
  }

  /** The steps that take in a query. */
  predicate IsQueryStep(step: Step) {
    step.AnswerLocally? || step.AnswerExhausted? || step.RelayFails? || step.RelayOpens?
  }

  /** What a step does to the tables, entry by entry. */
  lemma TablesAfter(c: Config, s: State, step: Step)
    requires c.Valid() && SameIds(s) && Enabled(c, s, step)
    ensures var s' := Apply(c, s, step);
            if step.RelayOpens? then
              var e := Sess(|s.origins|, step.origin.asked.header.id, step.origin.clientEnd, 0,
                            WithId(step.origin.asked, step.relayId), step.now);
              e.packet.header.id == step.relayId && s'.used == s.used + {step.relayId} &&
              s'.table == s.table[step.relayId := e] && s'.timers == s.timers[step.relayId := e.query]
            else if step.TimeoutRetries? then
              var e := s.table[step.relayId];
              s'.used == s.used && s'.timers == s.timers &&
              s'.table == s.table[step.relayId := e.(retries := e.retries + 1, timestamp := step.now)]
            else if step.ResponseArrives? || step.TimeoutGivesUp? then
              s'.used == s.used - {step.relayId} && s'.table == s.table - {step.relayId} &&
              s'.timers == s.timers - {step.relayId}
            else s'.used == s.used && s'.table == s.table && s'.timers == s.timers
  {
    hide Appended;
  }

  lemma StepKeepsIds(c: Config, s: State, step: Step)
    requires c.Valid() && SameIds(s) && Enabled(c, s, step)
    requires forall id | id in s.table :: s.table[id].query < |s.origins|
    ensures SameIds(Apply(c, s, step))
  {
    hide Appended, Apply, WithId, Together, Enabled;
    TablesAfter(c, s, step);
    WhoseTable(c, s, step);
    if step.RelayOpens? {
      TogetherWith(s.used, s.table, s.timers, step.relayId, Apply(c, s, step).table[step.relayId]);
    } else if step.ResponseArrives? || step.TimeoutGivesUp? {
      TogetherWithout(s.used, s.table, s.timers, step.relayId);
    } else if step.TimeoutRetries? {
      TogetherRenewed(s.used, s.table, s.timers, step.relayId, Apply(c, s, step).table[step.relayId]);
    }
  }

  lemma TogetherWith(used: set<uint16>, table: map<uint16, Sess>, timers: map<uint16, nat>, id: uint16, e: Sess)
    requires Together(used, table, timers) && id !in table && e.packet.header.id == id
    requires forall k | k in table :: table[k].query < e.query
    ensures Together(used + {id}, table[id := e], timers[id := e.query])
  {
  }

  lemma TogetherWithout(used: set<uint16>, table: map<uint16, Sess>, timers: map<uint16, nat>, id: uint16)
    requires Together(used, table, timers) && id in table
    ensures Together(used - {id}, table - {id}, timers - {id})
  {
  }

  lemma TogetherRenewed(used: set<uint16>, table: map<uint16, Sess>, timers: map<uint16, nat>, id: uint16, e: Sess)
    requires Together(used, table, timers) && id in table && e.query == table[id].query && e.packet == table[id].packet
    ensures Together(used, table[id := e], timers)
  {
  }

  lemma StepKeepsSessions(c: Config, s: State, step: Step)
    requires c.Valid() && SessionsGood(c, s) && Enabled(c, s, step)
    ensures SessionsGood(c, Apply(c, s, step))
  {
  }

  lemma StepKeepsConservation(c: Config, s: State, step: Step)
    requires c.Valid() && SameIds(s) && Conserved(s) && Enabled(c, s, step)
    ensures Conserved(Apply(c, s, step))
  {
    hide Apply, Appended, AllReplies, AllDrops;
    Tallies(c, s, step);
    AppendedShape(c, s, step);
    TableSize(c, s, step);
  }

  lemma WhoseTable(c: Config, s: State, step: Step)
    requires SameIds(s) && Enabled(c, s, step)
    ensures step.RelayOpens? ==> step.relayId !in s.table
    ensures step.ResponseArrives? || step.TimeoutRetries? || step.TimeoutGivesUp? ==> step.relayId in s.table
  {
  }

  lemma TableSize(c: Config, s: State, step: Step)
    requires c.Valid() && SameIds(s) && Enabled(c, s, step)
    ensures |Apply(c, s, step).table| ==
            |s.table| + (if step.RelayOpens? then 1 else if step.ResponseArrives? || step.TimeoutGivesUp? then -1 else 0)
  {
    hide Apply, Appended, WithId, SameIds, Enabled;
    TablesAfter(c, s, step);
    WhoseTable(c, s, step);
    if step.RelayOpens? {
      SizeWith(s.table, step.relayId, Apply(c, s, step).table[step.relayId]);
    } else if step.ResponseArrives? || step.TimeoutGivesUp? {
      SizeWithout(s.table, step.relayId);
    } else if step.TimeoutRetries? {
      SizeWith(s.table, step.relayId, Apply(c, s, step).table[step.relayId]);
    }
  }

  lemma SizeWith<K, V>(m: map<K, V>, k: K, v: V)
    ensures |m[k := v]| == if k in m then |m| else |m| + 1
  {
    assert m[k := v].Keys == m.Keys + {k};
  }

  lemma SizeWithout<K, V>(m: map<K, V>, k: K)
    requires k in m
    ensures |m - {k}| == |m| - 1
  {
    assert (m - {k}).Keys == m.Keys - {k};
  }

  lemma StepKeepsFaith(c: Config, s: State, step: Step)
    requires c.Valid() && SessionsGood(c, s) && Faithful(s) && Enabled(c, s, step)
    ensures Faithful(Apply(c, s, step))
  {
    var s' := Apply(c, s, step);
    forall a | a in s'.log
      ensures Fits(s'.origins, a)
    {
      assert a in s.log || a in Appended(c, s, step);
      assert a in s.log ==> Fits(s.origins, a);
    }
  }

  lemma StepKeepsRoundRobin(c: Config, s: State, step: Step)
    requires c.Valid() && RoundRobin(c, s) && Enabled(c, s, step)
    ensures RoundRobin(c, Apply(c, s, step))
  {
    hide Apply, Appended, Enabled, Picks;
    Tallies(c, s, step);
    AppendedShape(c, s, step);
    NextPick(|Picks(s.log)|, c.upstreams);
  }

  lemma SmallMultiple(k: int, m: int)
    requires m > 0
    ensures k >= 1 ==> k * m >= m
    ensures k <= -1 ==> k * m <= -m
  {
  }

  lemma DivModUnique(q: int, m: int, r: int)
    requires 0 <= r < m
    ensures (q * m + r) % m == r && (q * m + r) / m == q
  {
    var x: int := q * m + r;
    var k: int := x / m - q;
    var gap: int := x % m;
    assert k * m == r - gap;
    SmallMultiple(k, m);
  }

  lemma NextPick(n: nat, m: nat)
    requires m > 0
    ensures (n + 1) % m == if n % m + 1 >= m then 0 else n % m + 1
    ensures (n + 1) / m == if n % m + 1 >= m then n / m + 1 else n / m
  {
    var q, r := n / m, n % m;
    assert n == q * m + r;
    if r + 1 >= m {
      assert n + 1 == (q + 1) * m + 0;
      DivModUnique(q + 1, m, 0);
    } else {
      DivModUnique(q, m, r + 1);
    }
  }

  lemma StepKeepsSends(c: Config, s: State, step: Step)
    requires c.Valid() && SameIds(s) && SessionsGood(c, s) && SendsBounded(c, s) && Enabled(c, s, step)
    ensures SendsBounded(c, Apply(c, s, step))
  {
    hide Apply, Appended, Sends, WithId, Enabled, Together;
    var s' := Apply(c, s, step);
    TablesAfter(c, s, step);
    SendsAfter(c, s, step);
    WhoseTable(c, s, step);
    forall id | id in s'.table
      ensures Sends(s'.log, s'.table[id].query) == 1 + s'.table[id].retries
    {
      OneSessionPerQuery(s, step, id);
    }
    if step.TimeoutRetries? {
      RetriesLeft(c, s, step);
    }
  }

  lemma OneSessionPerQuery(s: State, step: Step, id: uint16)
    requires SameIds(s)
    ensures step.TimeoutRetries? && id in s.table && step.relayId in s.table && id != step.relayId ==>
              s.table[id].query != s.table[step.relayId].query
  {
  }

  lemma RetriesLeft(c: Config, s: State, step: Step)
    requires step.TimeoutRetries? && Enabled(c, s, step)
    ensures s.table[step.relayId].retries < c.Retries()
  {
  }

  /** How the numbers of queries and of sends change. */
  lemma SendsAfter(c: Config, s: State, step: Step)
    requires c.Valid() && Enabled(c, s, step)
    ensures var s' := Apply(c, s, step);
            var sent := if step.RelayFails? || step.RelayOpens? then |s.origins|
                        else if step.TimeoutRetries? then s.table[step.relayId].query else -1;
            |s'.origins| == |s.origins| + (if IsQueryStep(step) then 1 else 0) &&
            forall q: nat :: Sends(s'.log, q) == Sends(s.log, q) + if q == sent then 1 else 0
  {
    hide Apply, Appended, Sends;
    Tallies(c, s, step);
    AppendedShape(c, s, step);
  }

  lemma StepKeepsFate(c: Config, s: State, step: Step)
    requires c.Valid() && SameIds(s) && SessionsGood(c, s) && OneFate(s) && Enabled(c, s, step)
    ensures OneFate(Apply(c, s, step))
  {
    hide Apply, Appended, Replies, Drops, IsOpen;
    Tallies(c, s, step);
    AppendedShape(c, s, step);
    OpenAfter(c, s, step);
    QueryIsOpen(s, step);
  }

  /** The session a response or timeout is for has its query open. */
  lemma QueryIsOpen(s: State, step: Step)
    ensures (step.ResponseArrives? || step.TimeoutGivesUp?) && step.relayId in s.table ==>
              IsOpen(s, s.table[step.relayId].query)
  {
  }

  /** Which queries are open after a step. */
  lemma OpenAfter(c: Config, s: State, step: Step)
    requires c.Valid() && SameIds(s) && Enabled(c, s, step)
    ensures var s' := Apply(c, s, step);
            forall q: nat :: IsOpen(s', q) <==>
              match step
              case RelayOpens(_, _, _) => IsOpen(s, q) || q == |s.origins|
              case ResponseArrives(id, _) => IsOpen(s, q) && q != s.table[id].query
              case TimeoutGivesUp(id) => IsOpen(s, q) && q != s.table[id].query
              case _ => IsOpen(s, q)
  {
    var s' := Apply(c, s, step);
    forall q: nat | IsOpen(s, q)
      ensures IsOpen(s', q) || (step.ResponseArrives? && q == s.table[step.relayId].query)
                            || (step.TimeoutGivesUp? && q == s.table[step.relayId].query)
    {
      var id :| id in s.table && s.table[id].query == q;
      assert id in s'.table ==> s'.table[id].query == q;
    }
    if step.RelayOpens? {
      assert s'.table[step.relayId].query == |s.origins|;
    }
  }

  lemma StepKeepsInv(c: Config, s: State, step: Step)
    requires c.Valid() && Inv(c, s) && Enabled(c, s, step)
    ensures Inv(c, Apply(c, s, step))
  {
    hide Apply, OneFate, SendsBounded, Conserved, Faithful, RoundRobin;
    StepKeepsIds(c, s, step);
    StepKeepsSessions(c, s, step);
    StepKeepsConservation(c, s, step);
    StepKeepsFaith(c, s, step);
    StepKeepsRoundRobin(c, s, step);
    StepKeepsSends(c, s, step);
    StepKeepsFate(c, s, step);
  }

  // ---------- fairness ----------

  function Uses(picks: seq<nat>, i: nat): nat {
    if picks == [] then 0 else Uses(picks[..|picks| - 1], i) + if picks[|picks| - 1] == i then 1 else 0
  }

  /** After n sends over m upstreams every upstream has been used n/m times, rounded down or up. */
  lemma {:induction false} RoundRobinIsFair(picks: seq<nat>, m: nat, i: nat)
    requires i < m && forall k | 0 <= k < |picks| :: picks[k] == k % m
    ensures Uses(picks, i) == |picks| / m + if i < |picks| % m then 1 else 0
    decreases |picks|
  {
    if picks == [] {
      DivModUnique(0, m, 0);
    } else {
      var most := picks[..|picks| - 1];
      RoundRobinIsFair(most, m, i);
      NextPick(|most|, m);
    }
  }

  // ---------- the close as written ----------

  /**
   `do_handle_timeout` on an exhausted session, to the letter: the client's id is written into the
   stored packet before `session_close` reads the packet's id as the key to remove.
   */
  function GiveUpAsWritten(s: State, id: uint16): State
    requires id in s.table
  {
    var session := s.table[id];
    var overwritten := session.(packet := WithId(session.packet, session.clientId));
    var failure := Reply(session.query, MakeInnerError(overwritten.packet), session.clientEnd);
    Close(s.(table := s.table[id := overwritten], log := s.log + [failure]), overwritten.packet.header.id, id)
  }

  /** The written order keeps the ids together exactly when the client's id happens to be the relay id. */
  lemma GiveUpAsWrittenExact(s: State, id: uint16)
    requires SameIds(s) && id in s.table
    ensures SameIds(GiveUpAsWritten(s, id)) <==> s.table[id].clientId == id
  {
    var s' := GiveUpAsWritten(s, id);
    if s.table[id].clientId == id {
      assert s'.used == s'.table.Keys == s'.timers.Keys;
    } else {
      assert id in s'.table && id !in s'.used;
    }
  }

  /** The failure reply answers the client's own query. */
  lemma FailureAnswersQuery(c: Config, s: State, id: uint16)
    requires SessionsGood(c, s) && id in s.table
    ensures var e := s.table[id];
            e.query < |s.origins| &&
            Failure(e) == Reply(e.query, MakeInnerError(s.origins[e.query].asked), s.origins[e.query].clientEnd)
  {
    var e := s.table[id];
    assert WithId(e.packet, e.clientId) == s.origins[e.query].asked;
  }

  /** A query with id 7 relayed under id 9: giving up as written leaves its timer behind. */
  lemma GiveUpAsWrittenFails()
    ensures var asked := Packet(Header(7, 0, 0, 0, 0, 0), [], []);
            var open := RelayOpens(Origin(asked, 1), 9, 0);
            var c := Config(1, 0);
            Enabled(c, INITIAL, open) &&
            var s := Apply(c, INITIAL, open);
            Inv(c, s) && Enabled(c, s, TimeoutGivesUp(9)) &&
            9 in GiveUpAsWritten(s, 9).timers && 9 !in GiveUpAsWritten(s, 9).used
  {
    var c := Config(1, 0);
    var open := RelayOpens(Origin(Packet(Header(7, 0, 0, 0, 0, 0), [], []), 1), 9, 0);
    InitialInv(c);
    StepKeepsInv(c, INITIAL, open);
  }

  // ---------- whole runs ----------

  ghost predicate CanRun(c: Config, s: State, steps: seq<Step>)
    requires c.upstreams > 0
    decreases |steps|
  {
    steps == [] || (Enabled(c, s, steps[0]) && CanRun(c, Apply(c, s, steps[0]), steps[1..]))
  }

  ghost function Run(c: Config, s: State, steps: seq<Step>): State
    requires c.upstreams > 0 && CanRun(c, s, steps)
    decreases |steps|
  {
    if steps == [] then s else Run(c, Apply(c, s, steps[0]), steps[1..])
  }

  lemma {:induction false} RunKeepsInv(c: Config, s: State, steps: seq<Step>)
    requires c.Valid() && Inv(c, s) && CanRun(c, s, steps)
    ensures Inv(c, Run(c, s, steps))
    decreases |steps|
  {
    hide Inv, Apply, Enabled;
    if steps != [] {
      StepKeepsInv(c, s, steps[0]);
      RunKeepsInv(c, Apply(c, s, steps[0]), steps[1..]);
    }
  }

  lemma {:induction false} RunExtends(c: Config, s: State, steps: seq<Step>, last: Step)
    requires c.upstreams > 0 && CanRun(c, s, steps) && Enabled(c, Run(c, s, steps), last)
    ensures CanRun(c, s, steps + [last])
    ensures Run(c, s, steps + [last]) == Apply(c, Run(c, s, steps), last)
    decreases |steps|
  {
    hide Apply, Enabled;
    if steps == [] {
      assert ([] + [last])[1..] == [];
    } else {
      RunExtends(c, Apply(c, s, steps[0]), steps[1..], last);
      assert (steps + [last])[1..] == steps[1..] + [last];
    }
  }

  lemma {:induction false} RunConcat(c: Config, s: State, steps: seq<Step>, more: seq<Step>)
    requires c.upstreams > 0 && CanRun(c, s, steps) && CanRun(c, Run(c, s, steps), more)
    ensures CanRun(c, s, steps + more)
    ensures Run(c, s, steps + more) == Run(c, Run(c, s, steps), more)
    decreases |steps|
  {
    hide Apply, Enabled;
    if steps == [] {
      assert [] + more == more;
    } else {
      RunConcat(c, Apply(c, s, steps[0]), steps[1..], more);
      assert (steps + more)[1..] == steps[1..] + more;
    }
  }

  /** Every state a run can reach: one set of ids; every query open, answered or dropped, once; all of them
      accounted for; sends within one and the retries; and the k-th send to upstream k modulo their number. */
  lemma RelayRunsAreGood(c: Config, steps: seq<Step>)
    requires c.Valid() && CanRun(c, INITIAL, steps)
    ensures var s := Run(c, INITIAL, steps);
            Inv(c, s) &&
            s.used == s.table.Keys == s.timers.Keys &&
            (forall id | id in s.table :: s.table[id].packet.header.id == id) &&
            (forall q: nat :: Replies(s.log, q) + Drops(s.log, q) <= 1) &&
            |s.origins| == AllReplies(s.log) + |s.table| + AllDrops(s.log) &&
            (forall q: nat :: Sends(s.log, q) <= 1 + if c.maxRetry < 0 then 0 else c.maxRetry) &&
            (forall k | 0 <= k < |Picks(s.log)| :: Picks(s.log)[k] == k % c.upstreams)
  {
    InitialInv(c);
    RunKeepsInv(c, INITIAL, steps);
    Spelt(c, Run(c, INITIAL, steps));
  }

  lemma Spelt(c: Config, s: State)
    requires c.Valid() && Inv(c, s)
    ensures s.used == s.table.Keys == s.timers.Keys
    ensures forall id | id in s.table :: s.table[id].packet.header.id == id
    ensures forall q: nat :: Replies(s.log, q) + Drops(s.log, q) <= 1
    ensures |s.origins| == AllReplies(s.log) + |s.table| + AllDrops(s.log)
    ensures forall q: nat :: Sends(s.log, q) <= 1 + if c.maxRetry < 0 then 0 else c.maxRetry
    ensures forall k | 0 <= k < |Picks(s.log)| :: Picks(s.log)[k] == k % c.upstreams
  {
    hide Replies, Drops, Sends, Picks, AllReplies, AllDrops, IsOpen, Fits, WithId;
  }

  // ---------- timeouts come to an end ----------

  ghost function Weight(c: Config, e: Sess): nat {
    1 + if e.retries <= c.Retries() then c.Retries() - e.retries else 0
  }

  ghost function Pick(t: map<uint16, Sess>): (id: uint16)
    requires t != map[]
    ensures id in t
  {
    assert exists id :: id in t.Keys;
    var id :| id in t;
    id
  }

  lemma Smaller(t: map<uint16, Sess>, id: uint16)
    requires id in t
    ensures |t - {id}| < |t|
  {
    assert (t - {id}).Keys == t.Keys - {id};
  }

  /** The sum over open sessions of their remaining retries plus one. */
  ghost function Budget(c: Config, t: map<uint16, Sess>): nat
    decreases |t|
  {
    if t == map[] then 0
    else
      var id := Pick(t);
      Smaller(t, id);
      Weight(c, t[id]) + Budget(c, t - {id})
  }

  lemma {:induction false} BudgetWithout(c: Config, t: map<uint16, Sess>, id: uint16)
    requires id in t
    ensures Budget(c, t) == Weight(c, t[id]) + Budget(c, t - {id})
    decreases |t|
  {
    var x := Pick(t);
    if x != id {
      var without := t - {x};
      Smaller(t, x);
      Smaller(t, id);
      BudgetWithout(c, without, id);
      BudgetWithout(c, t - {id}, x);
      assert without - {id} == t - {id} - {x};
    }
  }

  predicate IsTimeout(step: Step) {
    step.TimeoutRetries? || step.TimeoutGivesUp?
  }

  /** The `k`-th step is for a session whose time was up at that reading of the clock, as it stood just
      before the step, and no other session had waited longer. */
  ghost predicate DueAt(c: Config, start: State, steps: seq<Step>, k: nat, timeout: int, clock: int)
    requires k < |steps| && c.upstreams > 0 && IsTimeout(steps[k])
  {
    CanRun(c, start, steps[..k]) &&
    var table, id := Run(c, start, steps[..k]).table, steps[k].relayId;
    && id in table
    && table[id].timestamp + timeout <= clock
    && forall other | other in table :: table[id].timestamp <= table[other].timestamp
  }

  ghost predicate AllDue(c: Config, start: State, steps: seq<Step>, from: nat, timeout: int, clock: int)
    requires c.upstreams > 0
  {
    forall k | from <= k < |steps| :: IsTimeout(steps[k]) && DueAt(c, start, steps, k, timeout, clock)
  }

  lemma DueGoesOn(c: Config, start: State, steps: seq<Step>, step: Step, timeout: int, before: int, clock: int)
    requires c.upstreams > 0 && CanRun(c, start, steps) && IsTimeout(step)
    requires AllDue(c, start, steps, 0, timeout, before) && before <= clock
    requires var table := Run(c, start, steps).table;
             step.relayId in table && table[step.relayId].timestamp + timeout <= clock &&
             forall other | other in table :: table[step.relayId].timestamp <= table[other].timestamp
    ensures AllDue(c, start, steps + [step], 0, timeout, clock)
  {
    hide CanRun, Run;
    var steps' := steps + [step];
    assert steps'[..|steps|] == steps;
    forall k | 0 <= k < |steps'|
      ensures IsTimeout(steps'[k]) && DueAt(c, start, steps', k, timeout, clock)
    {
      if k < |steps| {
        assert steps'[..k] == steps[..k] && steps'[k] == steps[k];
        assert DueAt(c, start, steps, k, timeout, before);
      }
    }
  }

  /** Timeouts that follow other steps are due in the longer run as well. */
  lemma DueAfter(c: Config, start: State, steps: seq<Step>, timeouts: seq<Step>, timeout: int, clock: int)
    requires c.upstreams > 0 && CanRun(c, start, steps)
    requires AllDue(c, Run(c, start, steps), timeouts, 0, timeout, clock)
    ensures AllDue(c, start, steps + timeouts, |steps|, timeout, clock)
  {
    hide CanRun, Run;
    var all := steps + timeouts;
    forall k | |steps| <= k < |all|
      ensures IsTimeout(all[k]) && DueAt(c, start, all, k, timeout, clock)
    {
      var j := k - |steps|;
      assert all[k] == timeouts[j] && all[..k] == steps + timeouts[..j];
      assert DueAt(c, Run(c, start, steps), timeouts, j, timeout, clock);
      RunConcat(c, start, steps, timeouts[..j]);
    }
  }

  lemma NoneDue(c: Config, start: State, timeout: int, clock: int)
    requires c.upstreams > 0
    ensures AllDue(c, start, [], 0, timeout, clock)
  {
  }

  lemma DueLater(c: Config, start: State, steps: seq<Step>, timeout: int, before: int, clock: int)
    requires c.upstreams > 0 && AllDue(c, start, steps, 0, timeout, before) && before <= clock
    ensures AllDue(c, start, steps, 0, timeout, clock)
  {
    hide CanRun, Run;
    assert forall k | 0 <= k < |steps| :: DueAt(c, start, steps, k, timeout, before);
  }

  lemma AllTimeouts(c: Config, start: State, steps: seq<Step>, timeout: int, clock: int)
    requires c.upstreams > 0 && AllDue(c, start, steps, 0, timeout, clock)
    ensures forall step | step in steps :: IsTimeout(step)
  {
    hide DueAt;
    forall step | step in steps
      ensures IsTimeout(step)
    {
      var k: nat :| k < |steps| && steps[k] == step;
    }
  }

  /** With nothing due, nothing times out. */
  lemma NothingDue(c: Config, start: State, steps: seq<Step>, timeout: int, clock: int)
    requires c.upstreams > 0 && AllDue(c, start, steps, 0, timeout, clock)
    ensures (forall id | id in start.table :: clock < start.table[id].timestamp + timeout) ==> steps == []
  {
    if steps != [] {
      assert DueAt(c, start, steps, 0, timeout, clock);
      assert steps[..0] == [];
    }
  }

  /** Whatever the clock says, a timeout step uses up some of the budget. */
  lemma TimeoutSpendsBudget(c: Config, s: State, step: Step)
    requires c.Valid() && IsTimeout(step) && Enabled(c, s, step)
    ensures Budget(c, Apply(c, s, step).table) < Budget(c, s.table)
  {
    var id, t := step.relayId, Apply(c, s, step).table;
    BudgetWithout(c, s.table, id);
    assert t - {id} == s.table - {id};
    if step.TimeoutRetries? {
      BudgetWithout(c, t, id);
    } else {
      assert t == s.table - {id};
    }
  }
}
