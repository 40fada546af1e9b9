/** The session table and its timers, src/server/session_factory.c, with the monotone clock. */
module SessionStore {
  import opened Common
  import opened Messages
  import opened HeapOrder
  import opened TimerHeap
  import opened Relay

  class SessionFactory {
    const timers: LazyHeap
    var sessions: map<uint16, Session>
    var clock: int  // the last reading of the monotone clock

    ghost function Repr(): set<object>
      reads this, timers
    {
      {this, timers, timers.elements} + timers.nodes + timers.Sessions()
    }

    /** The timers are in order, belong exactly to the open sessions, and none is from the future. */
    ghost predicate Valid()
      reads this, timers, Repr()
    {
      TimersSound() && timers.Pending() == sessions
    }

    ghost predicate TimersSound()
      reads this, timers, Repr()
    {
      timers.Valid() && timers.NoneLaterThan(clock)
    }

    ghost function Table(): map<uint16, Sess>
      reads this, sessions.Values
    {
      map id | id in sessions :: ViewOf(sessions[id])
    }

    lemma TableKeys()
      ensures Table().Keys == sessions.Keys
    {
    }

    ghost function Timers(): map<uint16, nat>
      reads timers`survivors
    {
      map id | id in timers.Pending() :: timers.Pending()[id].query
    }

    constructor ()
      ensures Valid() && fresh(Repr()) && sessions == map[] && timers.Pending() == map[]
      ensures Table() == map[] && Timers() == map[]
    {
      timers := new LazyHeap();
      sessions, clock := map[], 0;
    }

    /** `sys_time_ms`: the clock moves on by any amount and is read. */
    method SysTimeMs() returns (now: int)
      requires TimersSound()
      modifies this`clock
      ensures TimersSound() && now == clock >= old(clock)
    {
      hide LazyHeap.Slots, LazyHeap.Shape, LiveOrder;
      var elapsed: int :| elapsed >= 0;
      clock := clock + elapsed;
      now := clock;
      timers.UntouchedStays();
    }

    /** `timestamp = sys_time_ms()`, for a session whose timer has been removed. */
    method Renew(session: Session)
      requires TimersSound()
      requires forall id | id in timers.Pending() :: timers.Pending()[id] != session
      modifies this`clock, session`timestamp
      ensures TimersSound() && session.timestamp == clock >= old(clock)
    {
      hide LazyHeap.Slots, LazyHeap.Shape, LiveOrder;
      var now := SysTimeMs();
      label Read:
      session.timestamp := now;
      timers.RenewedUnseen@Read(session);
    }

    /** The second half of `session_wait`: a session without timer is stamped and gets one. */
    method StartTimer(session: Session)
      requires TimersSound()
      requires session.relayPacket.header.id !in timers.Pending()
      requires forall id | id in timers.Pending() :: timers.Pending()[id] != session
      modifies this`clock, timers, timers.elements, timers.nodes`slot, session`timestamp
      ensures TimersSound()
      ensures timers.Pending() == old(timers.Pending())[session.relayPacket.header.id := session]
      ensures session.timestamp == clock >= old(clock)
      ensures timers.OnlyGrew() && timers.Sessions() == old(timers.Sessions()) + {session}
    {
      hide LazyHeap.Slots, LazyHeap.Shape, LazyHeap.Valid, MayInsert;
      Renew(session);
      ghost var pending := timers.Pending();
      timers.LatestFits(clock);
      timers.Add(session.relayPacket.header.id, session);
      assert timers.Pending() == pending[session.relayPacket.header.id := session];
      assert timers.NoneLaterThan(clock);
    }

    /** `lazy_heap_remove` of the timer under an id. */
    method StopTimer(id: uint16)
      requires TimersSound()
      modifies timers`survivors, timers.nodes`isDeleted
      ensures TimersSound()
      ensures timers.Pending() == old(timers.Pending()) - {id} && timers.Sessions() == old(timers.Sessions())
    {
      hide LazyHeap.Slots, LazyHeap.Shape, LazyHeap.Valid;
      timers.Remove(id);
    }

    /**
     `session_wait`: the timer is removed, the session's timestamp renewed although dead elements
     still point to it, and a new timer added.
     */
    method Wait(session: Session)
      requires TimersSound()
      requires forall id | id in timers.Pending() && id != session.relayPacket.header.id ::
                 timers.Pending()[id] != session
      modifies this`clock, timers, timers.elements, timers.nodes, session`timestamp
      ensures TimersSound()
      ensures timers.Pending() == old(timers.Pending())[session.relayPacket.header.id := session]
      ensures session.timestamp == clock >= old(clock)
      ensures timers.OnlyGrew() && timers.Sessions() == old(timers.Sessions()) + {session}
    {
      hide LazyHeap.Slots, LazyHeap.Shape, LazyHeap.Valid, LazyHeap.Sessions, TimersSound;
      ghost var key := session.relayPacket.header.id;
      ghost var pending := timers.Pending();
      StopTimer(session.relayPacket.header.id);
      assert timers.Pending() == pending - {key};
      StartTimer(session);
      assert timers.Pending() == pending[key := session];
    }

    lemma TimersInside()
      requires Valid()
      ensures forall id | id in sessions :: sessions[id] in timers.Sessions()
    {
      timers.PendingInside();
    }

    /** Everything new in the representation is freshly allocated. */
    twostate predicate OnlyGrew()
      reads this, timers
    {
      timers.OnlyGrew() && forall s | s in timers.Sessions() :: s in old(timers.Sessions()) || fresh(s)
    }

    twostate lemma ReprFresh()
      requires OnlyGrew()
      ensures forall o: object | o in Repr() :: o in old(Repr()) || fresh(o)
    {
    }

    /** Sessions that are not written to look the same in the table. */
    twostate lemma EntryAdded(id: uint16, new session: Session)
      requires sessions == old(sessions)[id := session] && timers.Pending() == old(timers.Pending())[id := session]
      requires forall k | k in old(sessions) && k != id :: unchanged(old(sessions)[k])
      ensures Table() == old(Table())[id := ViewOf(session)] && Timers() == old(Timers())[id := session.query]
    {
    }

    twostate lemma EntryRemoved(id: uint16)
      requires sessions == old(sessions) - {id} && timers.Pending() == old(timers.Pending()) - {id}
      requires forall k | k in old(sessions) && k != id :: unchanged(old(sessions)[k])
      ensures Table() == old(Table()) - {id} && Timers() == old(Timers()) - {id}
    {
    }

    /** A new session is put into the table, without timer yet. */
    method NewSession(clientId: uint16, clientEnd: NetEnd, relayPacket: Packet, ghost query: nat) returns (session: Session)
      requires Valid()
      modifies this`sessions
      ensures fresh(session) && session.relayPacket == relayPacket && session.retryTimes == 0
      ensures session.clientId == clientId && session.clientEnd == clientEnd && session.query == query
      ensures sessions == old(sessions)[relayPacket.header.id := session]
      ensures TimersSound() && timers.Pending() == old(sessions) && timers.Sessions() == old(timers.Sessions())
      ensures forall k | k in old(sessions) :: old(sessions)[k] != session
    {
      hide LazyHeap.Valid, LazyHeap.NoneLaterThan, LazyHeap.Shape;
      session := new Session(clientId, clientEnd, relayPacket, query);
      sessions := sessions[relayPacket.header.id := session];
      timers.UntouchedStays();
    }

    /** `session_open`. A session already open under the id is superseded, and its timer with it. */
    method Open(clientId: uint16, clientEnd: NetEnd, relayPacket: Packet, ghost query: nat)
      requires Valid()
      modifies this, timers, timers.elements, timers.nodes
      ensures Valid() && clock >= old(clock)
      ensures OnlyGrew()
      ensures var id := relayPacket.header.id;
              Table() == old(Table())[id := Sess(query, clientId, clientEnd, 0, relayPacket, clock)] &&
              Timers() == old(Timers())[id := query]
    {
      hide LazyHeap.Valid, LazyHeap.NoneLaterThan, LazyHeap.Shape, LazyHeap.Sessions, TimersSound, Table, Timers;
      var session := NewSession(clientId, clientEnd, relayPacket, query);
      Wait(session);
      assert timers.Pending() == sessions;
      EntryAdded(relayPacket.header.id, session);
    }

    method CountRetry(session: Session)
      requires Valid()
      modifies session`retryTimes
      ensures Valid() && session.retryTimes == old(session.retryTimes) + 1
    {
      hide LazyHeap.Valid, LazyHeap.NoneLaterThan, LazyHeap.Shape;
      label Before:
      session.retryTimes := session.retryTimes + 1;
      timers.RetriesUnseen@Before(session);
    }

    /** `retry_times++; session_wait(session)` for an open session. */
    method Retry(session: Session, ghost id: uint16)
      requires Valid() && id in sessions && sessions[id] == session && session.relayPacket.header.id == id
      requires forall k | k in sessions && k != id :: sessions[k] != session
      modifies this`clock, timers, timers.elements, timers.nodes, session
      ensures Valid() && clock >= old(clock) && OnlyGrew()
      ensures var e := old(ViewOf(session));
              Table() == old(Table())[id := e.(retries := e.retries + 1, timestamp := clock)] &&
              Timers() == old(Timers())[id := e.query]
    {
      hide LazyHeap.Valid, LazyHeap.NoneLaterThan, LazyHeap.Shape, Table, Timers, LazyHeap.Sessions, TimersSound;
      TimersInside();
      CountRetry(session);
      Wait(session);
      assert timers.Sessions() == old(timers.Sessions()) + {session};
      assert timers.Pending() == sessions;
      EntryAdded(id, session);
    }

    /** `session_close`: timer and table entry go, under the id in the stored packet. */
    method Close(session: Session)
      requires Valid()
      modifies this`sessions, timers`survivors, timers.nodes`isDeleted
      ensures Valid() && Repr() == old(Repr())
      ensures var id := session.relayPacket.header.id;
              Table() == old(Table()) - {id} && Timers() == old(Timers()) - {id}
    {
      hide LazyHeap.Valid, Table, Timers;
      ghost var id := session.relayPacket.header.id;
      timers.Remove(session.relayPacket.header.id);
      label Removed:
      assert timers.NoneLaterThan(clock);
      sessions := sessions - {session.relayPacket.header.id};
      timers.UntouchedStays@Removed();
      EntryRemoved(id);
    }

    /** `session_get`. */
    function Get(relayId: uint16): Session?
      reads this
    {
      if relayId in sessions then sessions[relayId] else null
    }

    /** `sys_time_ms` for `get_session_timeout_remain`. */
    method ReadClock() returns (now: int)
      requires Valid()
      modifies this`clock
      ensures Valid() && now == clock >= old(clock)
      ensures Repr() == old(Repr()) && Table() == old(Table()) && Timers() == old(Timers())
    {
      hide LazyHeap.Valid, LazyHeap.Shape;
      now := SysTimeMs();
    }

    /** `session_peek`: an open session that was sent last the longest ago, or null when none is open. */
    method Peek() returns (earliest: Session?)
      requires Valid()
      modifies timers`size, timers.elements, timers.nodes`slot
      ensures Valid() && Repr() == old(Repr()) && Table() == old(Table()) && Timers() == old(Timers())
      ensures earliest == null <==> sessions == map[]
      ensures earliest != null ==>
                (exists id :: id in sessions && sessions[id] == earliest) &&
                forall id | id in sessions :: earliest.timestamp <= sessions[id].timestamp
    {
      hide LazyHeap.Valid, LazyHeap.Shape, Table, Timers;
      earliest := timers.Peek();
    }
  }

  ghost function ViewOf(s: Session): Sess
    reads s
  {
    Sess(s.query, s.clientId, s.clientEnd, s.retryTimes, s.relayPacket, s.timestamp)
  }
}
