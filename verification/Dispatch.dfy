/** `handle_dns_packet` of src/server/server.c with the resolver and the cache behind it: what one
    packet does to the relay and to the cache together. */
module Dispatch {
  import opened Common
  import opened Messages
  import opened Responses
  import opened CacheSpec
  import opened Cache
  import opened Blocking
  import opened Answers
  import Relay
  import opened Replies
  import opened Server

  /** The server and the cache share no object. */
  ghost predicate Apart(server: DnsServer, cache: DnsCache)
    reads server, server.factory, server.factory.timers, cache
  {
    cache !in server.Repr() && forall e | e in cache.Nodes() :: e !in server.Repr()
  }

  /** A local answer is a reply to the query's own id. */
  lemma AnswersOwnId(s: seq<Item>, query: Packet, now: int, later: int)
    requires Readable(query) && LocalAnswer(s, query, now, later).Some?
    ensures LocalAnswer(s, query, now, later).value.header.id == query.header.id
  {
    hide Blocked, Lookup;
  }

  /** What the handler asks of a packet: of a query, to be readable; of a response to be remembered, a
      question. */
  ghost predicate Acceptable(packet: Packet, useCache: bool) {
    if IsQuery(packet.header.flags) then Readable(packet) else useCache ==> packet.questions != []
  }

  /** The resolver's own answer to a packet. */
  ghost function Answered(s: seq<Item>, packet: Packet, now: int, later: int): Option<Packet>
    requires IsQuery(packet.header.flags) ==> Readable(packet)
  {
    if IsQuery(packet.header.flags) then LocalAnswer(s, packet, now, later) else None
  }

  /** What a packet does to the cache. */
  ghost function CacheAfter(c: nat, s: seq<Item>, packet: Packet, matched: bool, useCache: bool, now: int, later: int,
                            prunes: Schedule): seq<Item>
    requires c >= 1 && Acceptable(packet, useCache)
  {
    if IsQuery(packet.header.flags) then Run(c, s, Accesses(s, packet, now, later, prunes))
    else if matched && useCache then
      Put(s, c, KeyOf(packet.questions[0]), ValueOf(packet), now)
    else s
  }

  // ---------- one side acts, the other stays ----------

  method Resolve(server: DnsServer, cache: DnsCache, query: Packet, now: int, later: int, prunes: Schedule)
    returns (response: Option<Packet>)
    requires server.Valid() && cache.Valid() && Apart(server, cache)
    requires Readable(query) && now <= later && Counted(cache.Items())
    modifies cache, cache.Nodes()
    ensures server.Valid() && cache.Valid() && Apart(server, cache)
    ensures server.View() == old(server.View()) && server.Repr() == old(server.Repr()) && cache.OnlyGrew()
    ensures response == LocalAnswer(old(cache.Items()), query, now, later)
    ensures cache.Items() == Run(cache.capacity, old(cache.Items()), Accesses(old(cache.Items()), query, now, later, prunes))
  {
    hide DnsCache.Items, DnsCache.Valid, DnsServer.View, DnsServer.Valid, DnsServer.Sound, Run, Accesses, LocalAnswer, Readable, Counted;
    SoundWhenValid(server);
    ghost var view := server.View();
    response := PackTryResponseLocal(cache, query, now, later, prunes);
    assert server.Valid();
    SoundWhenValid(server);
    assert server.View() == view;
  }

  method Remember(server: DnsServer, cache: DnsCache, recv: Packet, clientId: uint16, useCache: bool, now: int)
    requires server.Valid() && cache.Valid() && Apart(server, cache)
    requires useCache ==> recv.questions != []
    modifies cache, cache.Nodes()
    ensures server.Valid() && cache.Valid() && Apart(server, cache)
    ensures server.View() == old(server.View()) && server.Repr() == old(server.Repr()) && cache.OnlyGrew()
    ensures cache.Items() ==
            if useCache then Put(old(cache.Items()), cache.capacity, KeyOf(recv.questions[0]), ValueOf(recv), now)
            else old(cache.Items())
  {
    hide DnsCache.Items, DnsCache.Valid, DnsServer.View, DnsServer.Valid, DnsServer.Sound, Put;
    SoundWhenValid(server);
    ghost var view := server.View();
    var _ := PackMakeResponseRelay(cache, recv, clientId, useCache, now);
    assert server.Valid();
    SoundWhenValid(server);
    assert server.View() == view;
  }

  method Serve(server: DnsServer, cache: DnsCache, packet: Packet, source: NetEnd, local: Option<Packet>, fails: bool)
    returns (ghost step: Relay.Step)
    requires server.Valid() && cache.Valid() && Apart(server, cache)
    requires local.Some? ==> local.value.header.id == packet.header.id
    modifies server, server.Repr()
    ensures server.Valid() && cache.Valid() && Apart(server, cache) && cache.Items() == old(cache.Items())
    ensures server.OnlyGrew() && cache.Nodes() == old(cache.Nodes())
    ensures server.Took(old(server.View()), step) && Handles(Arrival(packet, source, local, fails), step)
    ensures ReactsTo(old(server.View()), server.View(), packet, source, local, fails)
  {
    hide DnsCache.Items, DnsCache.Valid, DnsServer.View, DnsServer.Valid, DnsServer.Sound, ReactsTo;
    step := server.HandleDnsPacket(packet, source, local, fails);
    cache.Untouched();
  }

  lemma Waiting(server: DnsServer, id: uint16)
    requires server.Valid()
    ensures id in server.View().table <==> server.factory.Get(id) != null
  {
    hide Relay.Inv, DnsServer.View, DnsServer.Sound;
    server.IdsTogether();
  }

  lemma SoundWhenValid(server: DnsServer)
    requires server.Valid()
    ensures server.Sound()
  {
  }

  lemma Matches(server: DnsServer, before: Relay.State, step: Relay.Step)
    requires server.Sound() && server.Took(before, step)
    ensures step.ResponseArrives? ==> step.relayId in before.table
    ensures step.ResponseUnmatched? ==> step.relayId !in before.table
  {
    hide DnsServer.View;
  }

  // ---------- the handler ----------

  /** A query goes upstream only if the cache has no answer to it, and the reply it otherwise gets is that
      answer. */
  method HandleQuery(server: DnsServer, cache: DnsCache, query: Packet, source: NetEnd, fails: bool,
                     now: int, later: int, prunes: Schedule) returns (ghost step: Relay.Step)
    requires server.Valid() && cache.Valid() && Apart(server, cache)
    requires IsQuery(query.header.flags) && Readable(query) && now <= later && Counted(cache.Items())
    modifies server, server.Repr(), cache, cache.Nodes()
    ensures server.Valid() && cache.Valid() && Apart(server, cache)
    ensures server.OnlyGrew() && cache.OnlyGrew()
    ensures server.Took(old(server.View()), step)
    ensures Handles(Arrival(query, source, LocalAnswer(old(cache.Items()), query, now, later), fails), step)
    ensures ReactsTo(old(server.View()), server.View(), query, source, LocalAnswer(old(cache.Items()), query, now, later), fails)
    ensures cache.Items() == Run(cache.capacity, old(cache.Items()), Accesses(old(cache.Items()), query, now, later, prunes))
  {
    hide DnsCache.Items, DnsCache.Valid, DnsServer.View, DnsServer.Valid, DnsServer.Sound, DnsServer.Took, Run, Accesses, LocalAnswer, Handles, ReactsTo;
    var response := Resolve(server, cache, query, now, later, prunes);
    if response.Some? {
      AnswersOwnId(old(cache.Items()), query, now, later);
    }
    step := Serve(server, cache, query, source, response, fails);
  }

  /** A response is relayed, and remembered, only if a session waits for it. */
  method HandleResponse(server: DnsServer, cache: DnsCache, packet: Packet, source: NetEnd, useCache: bool, fails: bool, now: int)
    returns (ghost step: Relay.Step)
    requires server.Valid() && cache.Valid() && Apart(server, cache)
    requires !IsQuery(packet.header.flags) && (useCache ==> packet.questions != [])
    modifies server, server.Repr(), cache, cache.Nodes()
    ensures server.Valid() && cache.Valid() && Apart(server, cache)
    ensures server.OnlyGrew() && cache.OnlyGrew()
    ensures server.Took(old(server.View()), step) && Handles(Arrival(packet, source, None, fails), step)
    ensures ReactsTo(old(server.View()), server.View(), packet, source, None, fails)
    ensures cache.Items() ==
            if step.ResponseArrives? && useCache
            then Put(old(cache.Items()), cache.capacity, KeyOf(packet.questions[0]), ValueOf(packet), now)
            else old(cache.Items())
  {
    hide DnsCache.Items, DnsCache.Valid, DnsServer.View, DnsServer.Valid, DnsServer.Sound, DnsServer.Took, Put, ReactsTo;
    SoundWhenValid(server);
    ghost var before := server.View();
    Waiting(server, packet.header.id);
    var session := server.factory.Get(packet.header.id);
    if session != null {
      Remember(server, cache, packet, session.clientId, useCache, now);
    }
    step := Serve(server, cache, packet, source, None, fails);
    SoundWhenValid(server);
    Matches(server, before, step);
  }

  /** `handle_dns_packet`: the relay takes the one step the packet calls for, and the cache is used as
      that step uses it. */
  method HandleDnsPacket(server: DnsServer, cache: DnsCache, packet: Packet, source: NetEnd, useCache: bool, fails: bool,
                         now: int, later: int, prunes: Schedule) returns (ghost step: Relay.Step)
    requires server.Valid() && cache.Valid() && Apart(server, cache)
    requires now <= later && Counted(cache.Items()) && Acceptable(packet, useCache)
    modifies server, server.Repr(), cache, cache.Nodes()
    ensures server.Valid() && cache.Valid() && Apart(server, cache)
    ensures server.OnlyGrew() && cache.OnlyGrew()
    ensures server.Took(old(server.View()), step)
    ensures Handles(Arrival(packet, source, Answered(old(cache.Items()), packet, now, later), fails), step)
    ensures ReactsTo(old(server.View()), server.View(), packet, source, Answered(old(cache.Items()), packet, now, later), fails)
    ensures cache.Items() ==
            CacheAfter(cache.capacity, old(cache.Items()), packet, step.ResponseArrives?, useCache, now, later, prunes)
  {
    hide DnsCache.Items, DnsCache.Valid, DnsServer.View, DnsServer.Valid, DnsServer.Sound, DnsServer.Took, Put, Run, Accesses, Handles, ReactsTo;
    if IsQuery(packet.header.flags) {
      step := HandleQuery(server, cache, packet, source, fails, now, later, prunes);
    } else {
      step := HandleResponse(server, cache, packet, source, useCache, fails, now);
    }
  }

  /** What is in the cache stays fit to answer with, as long as well-formed responses come in. */
  lemma CacheStaysSound(c: nat, s: seq<Item>, packet: Packet, matched: bool, useCache: bool, now: int, later: int,
                        prunes: Schedule)
    requires c >= 1 && Acceptable(packet, useCache) && WellFormed(packet) && SoundItems(s) && now <= later
    ensures var s' := CacheAfter(c, s, packet, matched, useCache, now, later, prunes);
            SoundItems(s') && Counted(s')
  {
    hide WellFormed, SoundItems, Put, Run, KeyOf, SoundValue;
    RunKeepsSound(c, s, []);
    RunNothing(c, s);
    if IsQuery(packet.header.flags) {
      AccessesRead(s, packet, now, later, prunes);
      RunKeepsSound(c, s, Accesses(s, packet, now, later, prunes));
    } else if useCache {
      PacketValueIsSound(packet);
      var put := PutOp(KeyOf(packet.questions[0]), ValueOf(packet), now);
      RunOne(c, s, [], put);
      RunKeepsSound(c, s, [] + [put]);
    }
  }

  lemma AccessesRead(s: seq<Item>, query: Packet, now: int, later: int, prunes: Schedule)
    requires Readable(query) && now <= later
    ensures ReadsUntil(Accesses(s, query, now, later, prunes), later)
  {
    if query.header.qcount == 1 {
      var q := query.questions[0];
      LookedWithin(s, q, now, 0);
      WalkReads(q, now, prunes, Looked(s, q, now, 0));
    }
  }
}
