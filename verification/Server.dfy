/**
 The server of src/server/server.c: id pool, sessions and upstream cursor behind the packet and
 timeout handlers. Each handler is one step of the machine in `Relay`.
 */
module Server {
  import opened Common
  import opened Messages
  import opened TimerHeap
  import opened IdFactory
  import opened Responses
  import opened Relay
  import opened Replies
  import opened SessionStore

  class DnsServer {
    const upstreams: seq<NetEnd>
    const requestTimeout: int
    const maxRetry: int
    const ids: IdPool
    const factory: SessionFactory
    var nextUpstream: nat  // the length of the list stands for NULL
    ghost var origins: seq<Origin>
    ghost var log: seq<Action>

    ghost function Cfg(): Config {
      Config(|upstreams|, maxRetry)
    }

    ghost function Repr(): set<object>
      reads factory, factory.timers
    {
      {ids, ids.ids, ids.st} + factory.Repr()
    }

    ghost predicate Sound()
      reads this, factory, factory.timers, Repr()
    {
      && Cfg().Valid() && nextUpstream <= |upstreams|
      && ids.Valid() && factory.Valid()
      && ids !in factory.Repr() && ids.ids !in factory.Repr() && ids.st !in factory.Repr() && ids.ids as object != ids.st
    }

    /** Everything new in the representation is freshly allocated. */
    twostate predicate OnlyGrew()
      reads factory, factory.timers
    {
      forall o: object | o in Repr() :: o in old(Repr()) || fresh(o)
    }

    ghost function Next(): nat
      reads this
    {
      if nextUpstream == |upstreams| then 0 else nextUpstream
    }

    ghost function View(): State
      requires Sound()
      reads this, factory, factory.timers, Repr(), factory.sessions.Values
    {
      State(ids.Used(), factory.Table(), factory.Timers(), origins, log, Next())
    }

    ghost predicate Valid()
      reads this, factory, factory.timers, Repr(), factory.sessions.Values
    {
      Sound() && Inv(Cfg(), View())
    }

    constructor (upstreams: seq<NetEnd>, requestTimeout: int, maxRetry: int)
      requires upstreams != [] && maxRetry <= 127
      ensures Valid() && View() == INITIAL && fresh(Repr())
      ensures this.upstreams == upstreams && this.requestTimeout == requestTimeout && this.maxRetry == maxRetry
    {
      hide Inv, View, Sound, Valid, SessionFactory.Valid, IdPool.Valid, IdPool.Used, SessionFactory.Table, SessionFactory.Timers;
      this.upstreams, this.requestTimeout, this.maxRetry := upstreams, requestTimeout, maxRetry;
      var pool := new IdPool();
      var store := new SessionFactory();
      ids, factory := pool, store;
      nextUpstream := |upstreams|;
      origins, log := [], [];
      new;
      assert ids.Valid();
      assert factory.Valid();
      StartsEmpty();
    }

    lemma StartsEmpty()
      requires Cfg().Valid() && ids.Valid() && factory.Valid() && nextUpstream == |upstreams|
      requires ids !in factory.Repr() && ids.ids !in factory.Repr() && ids.st !in factory.Repr() && ids.ids as object != ids.st
      requires ids.Used() == {} && factory.Table() == map[] && factory.Timers() == map[] && origins == [] && log == []
      ensures Valid() && View() == INITIAL
    {
      hide Inv, SessionFactory.Valid, IdPool.Valid, IdPool.Used, SessionFactory.Table, SessionFactory.Timers;
      InitialInv(Cfg());
    }

    // ---------- sends, ids and sessions, each as a change of the view ----------

    /** `packet_send`: the packet goes to an address; whether that fails is for the network to say. What the log says is sent is
        what is sent: a reply to the client's address, a query to the address of the upstream named. */
    method PacketSend(packet: Packet, dest: NetEnd, fails: bool, ghost a: Action) returns (failed: bool)
      requires Sound()
      requires !a.Drop? && a.packet == packet
      requires a.Reply? ==> a.clientEnd == dest
      requires a.Send? ==> a.upstream < |upstreams| && upstreams[a.upstream] == dest
      modifies this`log
      ensures Repr() == old(Repr())
      ensures Sound()
      ensures View() == old(View()).(log := old(View()).log + [a]) && failed == fails
    {
      hide SessionFactory.Valid, IdPool.Valid, SessionFactory.Table, SessionFactory.Timers;
      log := log + [a];
      failed := fails;
    }

    method SendReply(packet: Packet, dest: NetEnd, ghost query: nat) returns (failed: bool)
      requires Sound()
      modifies this`log
      ensures Repr() == old(Repr())
      ensures Sound()
      ensures View() == old(View()).(log := old(View()).log + [Reply(query, packet, dest)])
    {
      hide View, Sound;
      var outcome := *;
      failed := PacketSend(packet, dest, outcome, Reply(query, packet, dest));
    }

    /** `pick_upstream`: the list's next address, over and over. */
    method PickUpstream() returns (upstream: NetEnd)
      requires Sound()
      modifies this`nextUpstream
      ensures Repr() == old(Repr())
      ensures Sound()
      ensures old(View()).next < |upstreams| && upstream == upstreams[old(View()).next]
      ensures View() == old(View()).(next := Advance(Cfg(), old(View()).next))
    {
      hide SessionFactory.Valid, IdPool.Valid, SessionFactory.Table, SessionFactory.Timers;
      if nextUpstream == |upstreams| {
        nextUpstream := 0;
      }
      upstream := upstreams[nextUpstream];
      nextUpstream := nextUpstream + 1;
    }

    /** `packet_send` of a query to the upstream picked. */
    method SendToUpstream(packet: Packet, fails: bool, ghost query: nat) returns (failed: bool)
      requires Sound()
      modifies this`log, this`nextUpstream
      ensures Repr() == old(Repr())
      ensures Sound()
      ensures View() == old(View()).(log := old(View()).log + [Send(query, packet, old(View()).next)],
                                     next := Advance(Cfg(), old(View()).next))
      ensures failed == fails
    {
      hide View, Sound;
      ghost var s := View();
      var upstream := PickUpstream();
      failed := PacketSend(packet, upstream, fails, Send(query, packet, s.next));
    }

    ghost method CountQuery(origin: Origin)
      requires Sound()
      modifies this`origins
      ensures Repr() == old(Repr())
      ensures Sound() && View() == old(View()).(origins := old(View()).origins + [origin])
    {
      hide SessionFactory.Valid, IdPool.Valid, SessionFactory.Table, SessionFactory.Timers;
      origins := origins + [origin];
    }

    ghost method LogDrop(query: nat)
      requires Sound()
      modifies this`log
      ensures Repr() == old(Repr())
      ensures Sound() && View() == old(View()).(log := old(View()).log + [Drop(query)])
    {
      hide SessionFactory.Valid, IdPool.Valid, SessionFactory.Table, SessionFactory.Timers;
      log := log + [Drop(query)];
    }

    method TakeId() returns (exhausted: bool, id: uint16)
      requires Sound()
      modifies ids, ids.st
      ensures Repr() == old(Repr())
      ensures Sound()
      ensures exhausted <==> forall x: uint16 :: x in old(View()).used
      ensures exhausted ==> View() == old(View())
      ensures !exhausted ==> id !in old(View()).used && View() == old(View()).(used := old(View()).used + {id})
    {
      hide SessionFactory.Valid, IdPool.Valid, SessionFactory.Table, SessionFactory.Timers;
      exhausted, id := ids.Alloc();
    }

    method GiveIdBack(id: uint16)
      requires Sound()
      modifies ids, ids.st, ids.ids
      ensures Repr() == old(Repr())
      ensures Sound() && View() == old(View()).(used := old(View()).used - {id})
    {
      hide SessionFactory.Valid, IdPool.Valid, SessionFactory.Table, SessionFactory.Timers;
      ids.FreeId(id);
    }

    method OpenSession(clientId: uint16, clientEnd: NetEnd, relayPacket: Packet, ghost query: nat)
      requires Sound()
      modifies factory.Repr()
      ensures Sound() && OnlyGrew()
      ensures var id := relayPacket.header.id;
              var s := old(View());
              View() == s.(table := s.table[id := Sess(query, clientId, clientEnd, 0, relayPacket, factory.clock)],
                           timers := s.timers[id := query])
    {
      hide SessionFactory.Valid, IdPool.Valid, SessionFactory.Table, SessionFactory.Timers, SessionFactory.OnlyGrew;
      factory.TableKeys();
      factory.Open(clientId, clientEnd, relayPacket, query);
      factory.ReprFresh();
    }

    method CloseSession(session: Session)
      requires Sound()
      modifies factory.Repr()
      ensures Sound() && Repr() == old(Repr()) && factory.clock == old(factory.clock)
      ensures var id := old(session.relayPacket.header.id);
              View() == old(View()).(table := old(View()).table - {id}, timers := old(View()).timers - {id})
    {
      hide SessionFactory.Valid, IdPool.Valid, SessionFactory.Table, SessionFactory.Timers;
      factory.Close(session);
    }

    method RetrySession(session: Session, relayId: uint16)
      requires Sound() && relayId in factory.sessions && factory.sessions[relayId] == session
      requires session.relayPacket.header.id == relayId
      requires forall k | k in factory.sessions && k != relayId :: factory.sessions[k] != session
      modifies factory.Repr()
      ensures Sound() && OnlyGrew() && old(factory.clock) <= factory.clock
      ensures var s, e := old(View()), old(ViewOf(session));
              View() == s.(table := s.table[relayId := e.(retries := e.retries + 1, timestamp := factory.clock)],
                           timers := s.timers[relayId := e.query])
    {
      hide SessionFactory.Valid, IdPool.Valid, SessionFactory.Table, SessionFactory.Timers, SessionFactory.OnlyGrew, ViewOf;
      ghost var e := ViewOf(session);
      factory.TimersInside();
      factory.Retry(session, relayId);
      factory.ReprFresh();
      assert Sound();
      assert View().table == old(View()).table[relayId := e.(retries := e.retries + 1, timestamp := factory.clock)];
      assert View().timers == old(View()).timers[relayId := e.query];
    }

    /** The ids in use are those of the open sessions, each stored under the id of its packet. */
    lemma IdsTogether()
      requires Valid()
      ensures Cfg().Valid() && |upstreams| > 0
      ensures View().used == factory.sessions.Keys == View().table.Keys
      ensures forall id | id in factory.sessions :: View().table[id] == ViewOf(factory.sessions[id])
      ensures forall id | id in factory.sessions :: factory.sessions[id].relayPacket.header.id == id
      ensures forall i, j | i in factory.sessions && j in factory.sessions && i != j ::
                factory.sessions[i] != factory.sessions[j]
    {
      hide IdPool.Valid, IdPool.Used, SessionFactory.Valid;
      assert SameIds(View());
      assert View().table.Keys == factory.sessions.Keys;
      assert forall id | id in factory.sessions :: View().table[id] == ViewOf(factory.sessions[id]);
    }

    // ---------- the handlers ----------

    /** From `before`, the step was possible, and this state is its result. */
    ghost predicate Took(before: State, step: Step)
      requires Sound()
      reads this, factory, factory.timers, Repr(), factory.sessions.Values
    {
      && Cfg().Valid()
      && Enabled(Cfg(), before, step)
      && View() == Apply(Cfg(), before, step)
    }

    lemma TookKeepsValid(before: State, step: Step)
      requires Sound() && Cfg().Valid() && Inv(Cfg(), before) && Took(before, step)
      ensures Valid()
    {
      StepKeepsInv(Cfg(), before, step);
    }

    /** A query answered from here, by the resolver or because ids have run out. */
    method Answer(packet: Packet, source: NetEnd, response: Packet, ghost step: Step)
      requires Valid() && response.header.id == packet.header.id
      requires step == AnswerLocally(Origin(packet, source), response) ||
               (step == AnswerExhausted(Origin(packet, source)) && response == MakeInnerError(packet) &&
                forall id: uint16 :: id in View().used)
      modifies this`log, this`origins
      ensures Repr() == old(Repr())
      ensures Valid() && Took(old(View()), step)
    {
      hide Inv, View, SessionFactory.Valid, IdPool.Valid, SessionFactory.Table, SessionFactory.Timers;
      ghost var before, q := View(), |View().origins|;
      var _ := SendReply(response, source, q);
      CountQuery(Origin(packet, source));
      assert View() == Apply(Cfg(), before, step);
      TookKeepsValid(before, step);
    }

    /** A query taken in is sent upstream for the first time. */
    method SendRelay(out: Packet, fails: bool, ghost origin: Origin) returns (failed: bool)
      requires Sound()
      modifies this`log, this`nextUpstream, this`origins
      ensures Repr() == old(Repr()) && Sound()
      ensures var s := old(View());
              View() == s.(log := s.log + [Send(|s.origins|, out, s.next)], next := Advance(Cfg(), s.next),
                           origins := s.origins + [origin])
      ensures failed == fails
    {
      hide View, Sound;
      failed := SendToUpstream(out, fails, |View().origins|);
      CountQuery(origin);
    }

    /** The relay that could not be sent is given up, and its id back. */
    method DropRelay(relayId: uint16, ghost query: nat)
      requires Sound()
      modifies this`log, ids, ids.st, ids.ids
      ensures Repr() == old(Repr()) && Sound()
      ensures View() == old(View()).(log := old(View()).log + [Drop(query)], used := old(View()).used - {relayId})
    {
      hide View, Sound;
      LogDrop(query);
      GiveIdBack(relayId);
    }

    /** The relayed half of `handle_dns_packet`: id, send, session. */
    method RelayQuery(packet: Packet, source: NetEnd, fails: bool) returns (ghost step: Step)
      requires Valid()
      modifies this, Repr()
      ensures Valid() && Took(old(View()), step) && OnlyGrew()
      ensures var o := Origin(packet, source);
              step == AnswerExhausted(o) ||
              (if fails then step.RelayFails? && step.origin == o else step.RelayOpens? && step.origin == o)
    {
      hide Inv, View, Sound, Config.Valid, SessionFactory.Repr, Apply, Appended, Enabled;
      IdsTogether();
      ghost var repr := Repr();
      ghost var before, q, o := View(), |View().origins|, Origin(packet, source);
      var exhausted, relayId := TakeId();
      if exhausted {
        step := AnswerExhausted(o);
        Answer(packet, source, MakeInnerError(packet), step);
        return;
      }
      var out := WithId(packet, relayId);
      var failed := SendRelay(out, fails, o);
      assert Repr() == repr;
      if failed {
        DropRelay(relayId, q);
        step := RelayFails(o, relayId);
        RelayedState(Cfg(), before, o, relayId, 0);
        assert before.used + {relayId} - {relayId} == before.used;
        assert View() == Apply(Cfg(), before, step);
      } else {
        OpenSession(packet.header.id, source, out, q);
        step := RelayOpens(o, relayId, factory.clock);
        RelayedState(Cfg(), before, o, relayId, factory.clock);
        assert View() == Apply(Cfg(), before, step);
      }
      TookKeepsValid(before, step);
    }

    /** The response half of `handle_dns_packet`. */
    method HandleResponse(packet: Packet) returns (ghost step: Step)
      requires Valid()
      modifies this, Repr()
      ensures Valid() && Took(old(View()), step) && Repr() == old(Repr())
      ensures step == if packet.header.id in old(View()).table then ResponseArrives(packet.header.id, packet)
                      else ResponseUnmatched(packet.header.id)
      ensures packet.header.id in old(View()).table ==> HandsOn(old(View()), View(), packet)
      ensures packet.header.id !in old(View()).table ==> View().log == old(View()).log
    {
      hide Inv, View, Sound, Config.Valid, SessionFactory.Repr, HandsOn;
      IdsTogether();
      ghost var before := View();
      var session := factory.Get(packet.header.id);
      if session == null {
        step := ResponseUnmatched(packet.header.id);
      } else {
        step := ResponseArrives(packet.header.id, packet);
        assert before.table[packet.header.id] == ViewOf(session);
        var out := WithId(packet, session.clientId);
        var _ := SendReply(out, session.clientEnd, session.query);
        CloseSession(session);
        GiveIdBack(packet.header.id);
      }
      assert View() == Apply(Cfg(), before, step);
      TookKeepsValid(before, step);
      ResponseHandedOn(Cfg(), before, step, packet);
    }

    /** `handle_dns_packet`; `local` is the resolver's own answer to a query, if it has one. */
    method HandleDnsPacket(packet: Packet, source: NetEnd, local: Option<Packet>, fails: bool) returns (ghost step: Step)
      requires Valid() && (local.Some? ==> local.value.header.id == packet.header.id)
      modifies this, Repr()
      ensures Valid() && Took(old(View()), step) && OnlyGrew()
      ensures Handles(Arrival(packet, source, local, fails), step)
      ensures (step.ResponseArrives? || step.ResponseUnmatched?) <==> packet.header.flags >= 0x8000
      ensures ReactsTo(old(View()), View(), packet, source, local, fails)
    {
      hide Inv, View, Sound, Config.Valid, SessionFactory.Repr, ReactsTo, Enabled, Apply;
      IdsTogether();
      OpcodeOneBitHigh(packet.header.flags);
      ghost var before := View();
      if IsQuery(packet.header.flags) {
        if local.Some? {
          step := AnswerLocally(Origin(packet, source), local.value);
          LocalEnabled(Cfg(), before, Origin(packet, source), local.value);
          Answer(packet, source, local.value, step);
        } else {
          step := RelayQuery(packet, source, fails);
        }
      } else {
        step := HandleResponse(packet);
      }
      Steps(before, step);
      StepAnswers(Cfg(), before, step, packet, source, local, fails);
    }

    // ---------- timeouts ----------

    /** The last reply of a session whose retries are used up. */
    method GiveUp(session: Session, relayId: uint16)
      requires Valid() && relayId in factory.sessions && factory.sessions[relayId] == session
      requires session.retryTimes >= maxRetry
      modifies this, Repr()
      ensures Valid() && Took(old(View()), TimeoutGivesUp(relayId)) && Repr() == old(Repr())
      ensures factory.clock == old(factory.clock)
    {
      hide Inv, View, Sound, Config.Valid, SessionFactory.Repr;
      IdsTogether();
      ghost var before := View();
      assert before.table[relayId] == ViewOf(session);
      var failPacket := MakeInnerError(WithId(session.relayPacket, session.clientId));
      var _ := SendReply(failPacket, session.clientEnd, session.query);
      CloseSession(session);
      GiveIdBack(relayId);
      assert View() == Apply(Cfg(), before, TimeoutGivesUp(relayId));
      TookKeepsValid(before, TimeoutGivesUp(relayId));
    }

    method Resend(session: Session, relayId: uint16)
      requires Valid() && relayId in factory.sessions && factory.sessions[relayId] == session
      requires session.retryTimes < maxRetry
      modifies this, Repr()
      ensures Valid() && Took(old(View()), TimeoutRetries(relayId, factory.clock)) && OnlyGrew()
      ensures old(factory.clock) <= factory.clock
    {
      hide Inv, View, Sound, Config.Valid, SessionFactory.Repr;
      IdsTogether();
      ghost var before := View();
      assert before.table[relayId] == ViewOf(session);
      var outcome := *;
      var _ := SendToUpstream(session.relayPacket, outcome, session.query);
      RetrySession(session, relayId);
      assert View() == Apply(Cfg(), before, TimeoutRetries(relayId, factory.clock));
      TookKeepsValid(before, TimeoutRetries(relayId, factory.clock));
    }

    /**
     `do_handle_timeout`, with the close under the captured relay id: the failure response is built
     from a copy, where the C code overwrites the id in the stored packet first.
     */
    method DoHandleTimeout(session: Session) returns (ghost step: Step)
      requires Valid() && session in factory.sessions.Values
      modifies this, Repr()
      ensures Valid() && Took(old(View()), step) && OnlyGrew()
      ensures old(factory.clock) <= factory.clock
      ensures var relayId := old(session.relayPacket.header.id);
              step == if old(session.retryTimes) >= maxRetry then TimeoutGivesUp(relayId)
                      else TimeoutRetries(relayId, factory.clock)
    {
      hide Inv, View, Sound, Config.Valid, SessionFactory.Repr;
      IdsTogether();
      var relayId := session.relayPacket.header.id;
      if session.retryTimes >= maxRetry {
        GiveUp(session, relayId);
        step := TimeoutGivesUp(relayId);
      } else {
        Resend(session, relayId);
        step := TimeoutRetries(relayId, factory.clock);
      }
    }

    /** `session_peek`, then a clock reading. */
    method PeekAndRead() returns (earliest: Session?, now: int)
      requires Valid()
      modifies Repr()
      ensures Valid() && View() == old(View()) && Repr() == old(Repr())
      ensures now == factory.clock >= old(factory.clock) && factory.sessions == old(factory.sessions)
      ensures earliest == null <==> factory.sessions == map[]
      ensures earliest != null ==>
                earliest in factory.sessions.Values &&
                forall id | id in factory.sessions :: earliest.timestamp <= factory.sessions[id].timestamp
    {
      hide Inv, SessionFactory.Valid, IdPool.Valid, SessionFactory.Table, SessionFactory.Timers;
      earliest := factory.Peek();
      now := factory.ReadClock();
    }

    /**
     `batch_timeout`. It ends, whatever the clock does; it is a run of timeout steps, each for a session
     whose time was up, the one that had waited longest; when it ends no open session's time is up at
     the last clock reading; and if none was to begin with, nothing is done.
     */
    method BatchTimeout() returns (ghost steps: seq<Step>)
      requires Valid()
      modifies this, Repr()
      ensures Valid() && OnlyGrew() && Cfg().Valid()
      ensures RanTo(old(View()), steps) && forall step | step in steps :: IsTimeout(step)
      ensures AllDue(Cfg(), old(View()), steps, 0, requestTimeout, factory.clock)
      ensures forall id | id in factory.sessions :: factory.clock < factory.sessions[id].timestamp + requestTimeout
      ensures (forall id | id in old(View()).table :: factory.clock < old(View()).table[id].timestamp + requestTimeout) ==>
                steps == []
    {
      hide Inv, View, Sound, Config.Valid, SessionFactory.Repr, Apply, Enabled, AllDue;
      IdsTogether();
      ghost var start := View();
      NoneDue(Cfg(), start, requestTimeout, factory.clock);
      steps := [];
      while true
        invariant Valid() && OnlyGrew() && |upstreams| > 0 && Cfg().Valid()
        invariant RanTo(start, steps) && AllDue(Cfg(), start, steps, 0, requestTimeout, factory.clock)
        decreases Budget(Cfg(), View().table)
      {
        ghost var reading := factory.clock;
        var session, now := PeekAndRead();
        DueLater(Cfg(), start, steps, requestTimeout, reading, now);
        if session == null || requestTimeout - (now - session.timestamp) > 0 {
          break;
        }
        ghost var before := View();
        Earliest(session);
        ghost var step := DoHandleTimeout(session);
        Shrinks(before, step);
        DueGoesOn(Cfg(), start, steps, step, requestTimeout, now, factory.clock);
        RunExtends(Cfg(), start, steps, step);
        steps := steps + [step];
      }
      AllTimeouts(Cfg(), start, steps, requestTimeout, factory.clock);
      NothingDue(Cfg(), start, steps, requestTimeout, factory.clock);
    }

    /** The session peeked at, as the view has it. */
    lemma Earliest(session: Session)
      requires Valid() && session in factory.sessions.Values
      requires forall id | id in factory.sessions :: session.timestamp <= factory.sessions[id].timestamp
      ensures var table, id := View().table, session.relayPacket.header.id;
              id in table && table[id].timestamp == session.timestamp &&
              forall other | other in table :: table[id].timestamp <= table[other].timestamp
    {
      hide Inv, View, Sound, Config.Valid;
      IdsTogether();
    }

    /** The steps lead from `start` to here. */
    ghost predicate RanTo(start: State, steps: seq<Step>)
      requires Sound()
      reads this, factory, factory.timers, Repr(), factory.sessions.Values
    {
      |upstreams| > 0 && CanRun(Cfg(), start, steps) && Run(Cfg(), start, steps) == View()
    }

    lemma Shrinks(before: State, step: Step)
      requires Sound() && Took(before, step) && IsTimeout(step)
      ensures Budget(Cfg(), View().table) < Budget(Cfg(), before.table)
      ensures |upstreams| > 0 && Enabled(Cfg(), before, step) && View() == Apply(Cfg(), before, step)
    {
      TimeoutSpendsBudget(Cfg(), before, step);
    }

    /** One round of `server_loop`: the waiting packets in order, then the timeouts. */
    method ServerRound(arrivals: seq<Arrival>) returns (ghost steps: seq<Step>)
      requires Valid()
      requires forall a | a in arrivals && a.local.Some? :: a.local.value.header.id == a.packet.header.id
      modifies this, Repr()
      ensures Valid() && OnlyGrew() && RanTo(old(View()), steps) && Cfg().Valid()
      ensures |arrivals| <= |steps| && forall k | 0 <= k < |steps| ::
                if k < |arrivals| then Handles(arrivals[k], steps[k]) else IsTimeout(steps[k])
      ensures AllDue(Cfg(), old(View()), steps, |arrivals|, requestTimeout, factory.clock)
      ensures forall id | id in factory.sessions :: factory.clock < factory.sessions[id].timestamp + requestTimeout
    {
      hide Inv, View, Sound, Config.Valid, SessionFactory.Repr, Apply, Enabled, Handles, AllDue;
      IdsTogether();
      ghost var start := View();
      steps := [];
      for i := 0 to |arrivals|
        invariant Valid() && OnlyGrew() && RanTo(start, steps)
        invariant |steps| == i && forall k | 0 <= k < i :: Handles(arrivals[k], steps[k])
      {
        ghost var before := View();
        ghost var step := HandleDnsPacket(arrivals[i].packet, arrivals[i].source, arrivals[i].local, arrivals[i].fails);
        Steps(before, step);
        RunExtends(Cfg(), start, steps, step);
        steps := steps + [step];
      }
      ghost var timeouts := BatchTimeout();
      RunConcat(Cfg(), start, steps, timeouts);
      DueAfter(Cfg(), start, steps, timeouts, requestTimeout, factory.clock);
      steps := steps + timeouts;
    }

    lemma Steps(before: State, step: Step)
      requires Sound() && Took(before, step)
      ensures |upstreams| > 0 && Enabled(Cfg(), before, step) && View() == Apply(Cfg(), before, step)
    {
    }
  }

  /** The kind of step a packet leads to; which of the alternatives, `Enabled` decides. */
  ghost predicate Handles(a: Arrival, step: Step) {
    var o, id := Origin(a.packet, a.source), a.packet.header.id;
    if !IsQuery(a.packet.header.flags) then step == ResponseArrives(id, a.packet) || step == ResponseUnmatched(id)
    else if a.local.Some? then step == AnswerLocally(o, a.local.value)
    else step == AnswerExhausted(o) ||
         (if a.fails then step.RelayFails? && step.origin == o else step.RelayOpens? && step.origin == o)
  }

  /** A received packet, with the resolver's own answer to it if it has one, and whether sending it upstream
      would fail. */
  datatype Arrival = Arrival(packet: Packet, source: NetEnd, local: Option<Packet>, fails: bool)
}
