/**
 What clients are told over the life of the cache: the blocking decision, answers relayed once and
 served afterwards, and that all of them are well-formed responses to the query asked.
 */
module Answers {
  import opened Common
  import opened Messages
  import opened Responses
  import opened CacheSpec
  import opened CacheTheorems
  import CacheKey
  import opened Cache
  import opened Blocking

  // ---------- values fit to answer with ----------

  /** The records are as many as announced, each of them printable. */
  ghost predicate SoundValue(v: CacheValue) {
    var a: nat, n: nat, d: nat := v.answers, v.authorities, v.additionals;
    a + n + d == |v.rrs| && forall r | r in v.rrs :: PlainRecord(r)
  }

  ghost predicate SoundItems(s: seq<Item>) {
    forall e | e in s :: SoundValue(e.value)
  }

  lemma StepKeepsSound(c: nat, s: seq<Item>, op: Op)
    requires c >= 1 && SoundItems(s) && (op.PutOp? ==> SoundValue(op.value))
    ensures SoundItems(Step(c, s, op))
  {
    hide Expired, SoundValue;
  }

  /** Only sound values put in, only sound values found. */
  lemma {:induction false} RunKeepsSound(c: nat, s: seq<Item>, ops: seq<Op>)
    requires c >= 1 && SoundItems(s) && forall op | op in ops && op.PutOp? :: SoundValue(op.value)
    ensures SoundItems(Run(c, s, ops)) && Counted(Run(c, s, ops))
    decreases |ops|
  {
    if ops != [] {
      var before, op := ops[..|ops| - 1], ops[|ops| - 1];
      RunKeepsSound(c, s, before);
      StepKeepsSound(c, Run(c, s, before), op);
    }
  }

  // ---------- single answers ----------

  ghost predicate Carries(r: Packet, v: CacheValue) {
    && r.header.answers == v.answers && r.header.authorities == v.authorities && r.header.additionals == v.additionals
    && r.records == v.rrs
  }

  /** The answer from the cache: a response without error, with the cached counts and records; printable
      if the query and the value are. */
  lemma StdResponse(query: Packet, v: CacheValue)
    ensures var r := MakeStdResponseLocal(query, v);
            Responds(r, query, 0) && Carries(r, v) && !IsQuery(r.header.flags) &&
            (WellFormed(query) && SoundValue(v) ==> WellFormed(r))
  {
    EmptyResponds(query);
    hide MakeResponseEmpty;
  }

  lemma EmptyResponse(query: Packet)
    ensures MakeResponseEmpty(query) == MakeStdResponseLocal(query, CacheValue(0, 0, 0, []))
  {
  }

  /** Every local answer is a well-formed response to its own query. */
  lemma LocalAnswerIsSound(s: seq<Item>, query: Packet, now: int, later: int)
    requires WellFormed(query) && Readable(query) && SoundItems(s)
    requires LocalAnswer(s, query, now, later).Some?
    ensures var r := LocalAnswer(s, query, now, later).value;
            WellFormed(r) && !IsQuery(r.header.flags) &&
            r.header.id == query.header.id && r.questions == query.questions
  {
    hide WellFormed, SoundValue, Blocked, OpcodeGet, MakeResponseFail, MakeResponseEmpty, MakeStdResponseLocal, SetRcode, RdGet;
    EmptyResponse(query);
    NothingIsSound();
    StdResponse(query, CacheValue(0, 0, 0, []));
    FailureResponse(query, RCODE_NOTIMP);
    FailureResponse(query, RCODE_NXDOMAIN);
    if query.header.qcount == 1 {
      var found := Lookup(s, KeyOf(query.questions[0]), later);
      if found.Some? {
        StdResponse(query, found.value);
      }
    }
  }

  lemma NothingIsSound()
    ensures SoundValue(CacheValue(0, 0, 0, []))
  {
  }

  // ---------- which answer, in numbers ----------

  /** An A or AAAA record whose bytes past the first are all zero. */
  ghost predicate ZeroAddress(r: Record) {
    (r.rtype == 1 || r.rtype == 28) && forall i | 1 <= i < |r.rdata| :: r.rdata[i] == 0
  }

  /** An unexpired entry of the type and class asked for, of the name or one of its parents other than
      the root, with such a record. */
  ghost predicate BlocksName(e: Item, q: Question, now: int) {
    && !Expired(e, now)
    && (exists r :: r in e.value.rrs && ZeroAddress(r))
    && exists i: nat :: i < Depth(q.qname) && e.key == CacheKey.Print(q.qclass, q.qtype, Ancestor(q.qname, i))
  }

  /** An unexpired entry of the question itself. */
  ghost predicate AnswersName(e: Item, q: Question, now: int) {
    !Expired(e, now) && e.key == CacheKey.Print(q.qclass, q.qtype, q.qname)
  }

  lemma BlockedByEntry(s: seq<Item>, q: Question, now: int)
    requires Distinct(s)
    ensures Blocked(s, q, now) <==> exists e :: e in s && BlocksName(e, q, now)
  {
    hide Distinct, Expired, Depth, Ancestor;
    if Blocked(s, q, now) {
      var i: nat :| i < Depth(q.qname) && BlockedAt(s, q, i, now);
      var e := Entry(s, KeyOf(q.(qname := Ancestor(q.qname, i))));
      var j :| 0 <= j < |e.value.rrs| && BlockingRecord(e.value.rrs[j]);
      assert ZeroAddress(e.value.rrs[j]);
      assert e in s && BlocksName(e, q, now);
    }
    forall e | e in s && BlocksName(e, q, now)
      ensures Blocked(s, q, now)
    {
      EntryUnique(s, e);
      var i: nat :| i < Depth(q.qname) && e.key == CacheKey.Print(q.qclass, q.qtype, Ancestor(q.qname, i));
      var r :| r in e.value.rrs && ZeroAddress(r);
      var j :| 0 <= j < |e.value.rrs| && e.value.rrs[j] == r;
      assert BlockingRecord(r);
      assert BlockingValue(e.value);
      assert BlockedAt(s, q, i, now);
    }
  }

  lemma FoundEntry(s: seq<Item>, q: Question, now: int)
    requires Distinct(s)
    ensures var found := Lookup(s, KeyOf(q), now);
            (found.Some? <==> exists e :: e in s && AnswersName(e, q, now)) &&
            forall e | e in s && AnswersName(e, q, now) :: found == Some(e.value)
  {
    hide Distinct, Expired, CacheKey.Print;
    if Hit(s, KeyOf(q), now) {
      assert AnswersName(Entry(s, KeyOf(q)), q, now);
    }
    forall e | e in s && AnswersName(e, q, now)
      ensures Lookup(s, KeyOf(q), now) == Some(e.value)
    {
      EntryUnique(s, e);
    }
  }

  /**
   Which answer a query gets, by the bits of its flags, its question count and the entries of the cache.
   It goes upstream if and only if it is a standard query for one name, RD is set, nothing blocks it and
   nothing answers it.
   */
  lemma LocalAnswerExact(s: seq<Item>, query: Packet, now: int, later: int)
    requires Distinct(s) && Readable(query)
    ensures var f, n, r := query.header.flags, query.header.qcount, LocalAnswer(s, query, now, later);
            (r == None <==>
               && f / 0x1000 == 0 && n == 1 && f % 0x200 >= 0x100
               && !(exists e :: e in s && BlocksName(e, query.questions[0], now))
               && !(exists e :: e in s && AnswersName(e, query.questions[0], later))) &&
            (f / 0x1000 == 1 || f / 0x1000 == 2 || (f / 0x1000 == 0 && n > 1) ==>
               r.Some? && Responds(r.value, query, 4) && NoRecords(r.value)) &&
            (f / 0x1000 > 2 || (f / 0x1000 == 0 && n == 0) ==>
               r.Some? && Responds(r.value, query, 0) && NoRecords(r.value)) &&
            (f / 0x1000 == 0 && n == 1 ==>
               var q := query.questions[0];
               if exists e :: e in s && BlocksName(e, q, now)
               then r.Some? && Responds(r.value, query, 3) && NoRecords(r.value)
               else if exists e :: e in s && AnswersName(e, q, later)
               then r.Some? && Responds(r.value, query, 0) &&
                    forall e | e in s && AnswersName(e, q, later) :: Carries(r.value, e.value)
               else f % 0x200 < 0x100 ==> r.Some? && Responds(r.value, query, 0) && NoRecords(r.value))
  {
    hide Blocked, BlocksName, AnswersName, Lookup, OpcodeGet, RdGet, Distinct, Responds, Carries, NoRecords;
    hide MakeResponseFail, MakeResponseEmpty, MakeStdResponseLocal;
    OpcodeOneBitHigh(query.header.flags);
    EmptyResponds(query);
    FailureResponse(query, 4);
    FailureResponse(query, 3);
    if query.header.qcount == 1 {
      var q := query.questions[0];
      BlockedByEntry(s, q, now);
      FoundEntry(s, q, later);
      var found := Lookup(s, KeyOf(q), later);
      if found.Some? {
        StdResponse(query, found.value);
      }
    }
  }

  /** The entry, unexpired, is the question's under its `i`-th name, and holds the A or AAAA record, whose
      bytes past the first are all zero. */
  ghost predicate BlocksWith(e: Item, rr: Record, i: nat, q: Question, now: int) {
    && !Expired(e, now) && rr in e.value.rrs
    && (rr.rtype == 1 || rr.rtype == 28) && (forall j | 1 <= j < |rr.rdata| :: rr.rdata[j] == 0)
    && i < Depth(q.qname) && e.key == CacheKey.Print(q.qclass, q.qtype, Ancestor(q.qname, i))
  }

  /** A standard query for one name is refused as non-existent, code 3, exactly when some entry blocks it:
      one of the class and type asked for, of the name or a parent other than the root, not expired, with
      an A or AAAA record whose bytes past the first are all zero. */
  lemma BlockingDecision(s: seq<Item>, query: Packet, now: int, later: int)
    requires Distinct(s) && Readable(query) && query.header.flags / 0x1000 == 0 && query.header.qcount == 1
    ensures var q, r := query.questions[0], LocalAnswer(s, query, now, later);
            (r.Some? && r.value.header.flags % 0x10 == 3) <==>
            exists e, rr, i: nat :: e in s && BlocksWith(e, rr, i, q, now)
  {
    hide LocalAnswer, AnswersName, BlocksName, Distinct, Expired, Depth, Ancestor, Carries, NoRecords, CacheKey.Print;
    LocalAnswerExact(s, query, now, later);
    BlocksSpeltOut(s, query.questions[0], now);
  }

  lemma BlocksSpeltOut(s: seq<Item>, q: Question, now: int)
    ensures (exists e :: e in s && BlocksName(e, q, now)) <==>
            exists e, rr, i: nat :: e in s && BlocksWith(e, rr, i, q, now)
  {
    hide Expired, Depth, Ancestor, CacheKey.Print;
    forall e | e in s && BlocksName(e, q, now)
      ensures exists rr, i: nat :: BlocksWith(e, rr, i, q, now)
    {
      var rr :| rr in e.value.rrs && ZeroAddress(rr);
      var i: nat :| i < Depth(q.qname) && e.key == CacheKey.Print(q.qclass, q.qtype, Ancestor(q.qname, i));
      assert BlocksWith(e, rr, i, q, now);
    }
    forall e, rr, i: nat | BlocksWith(e, rr, i, q, now)
      ensures BlocksName(e, q, now)
    {
      assert ZeroAddress(rr);
    }
  }

  /** The AAAA address `::`, once put under a name, has the name and every name below it refused. */
  lemma ZeroAaaaBlocks(c: nat, s: seq<Item>, name: seq<byte>, t: int, query: Packet, i: nat, now: int, later: int)
    requires Sane(s, c) && Readable(query) && query.header.flags / 0x1000 == 0 && query.header.qcount == 1
    requires query.questions[0].qtype == 28 && query.questions[0].qclass == 1
    requires i < Depth(query.questions[0].qname) && Ancestor(query.questions[0].qname, i) == name
    ensures var zero := Record(name, 28, 1, 0xFFFF_FFFF, seq(16, _ => 0));
            var r := LocalAnswer(Put(s, c, CacheKey.Print(1, 28, name), CacheValue(1, 0, 0, [zero]), t), query, now, later);
            r.Some? && r.value.header.flags % 0x10 == 3 && r.value.records == []
  {
    hide LocalAnswer, AnswersName, Expired, Depth, Ancestor, Carries, CacheKey.Print, Distinct;
    var zero := Record(name, 28, 1, 0xFFFF_FFFF, seq(16, _ => 0));
    var k, v := CacheKey.Print(1, 28, name), CacheValue(1, 0, 0, [zero]);
    var s' := Put(s, c, k, v, t);
    StepKeeps(c, s, PutOp(k, v, t));
    LocalAnswerExact(s', query, now, later);
    assert zero in v.rrs && ZeroAddress(zero);
    LastsForEver(Item(k, v, t), now);
    assert s'[0] == Item(k, v, t);
    assert BlocksName(s'[0], query.questions[0], now);
  }

  lemma LastsForEver(e: Item, now: int)
    requires forall r | r in e.value.rrs :: r.ttl == 0xFFFF_FFFF
    ensures !Expired(e, now)
  {
  }

  // ---------- relayed answers ----------

  function ValueOf(recv: Packet): CacheValue {
    CacheValue(recv.header.answers, recv.header.authorities, recv.header.additionals, recv.records)
  }

  lemma PacketValueIsSound(recv: Packet)
    requires WellFormed(recv)
    ensures SoundValue(ValueOf(recv))
  {
  }

  /** `pack_make_response_relay`: under the client's id, and remembered if the cache is in use. */
  method PackMakeResponseRelay(cache: DnsCache, recv: Packet, clientId: uint16, useCache: bool, now: int)
    returns (send: Packet)
    requires cache.Valid() && (useCache ==> recv.questions != [])
    modifies cache, cache.Nodes()
    ensures cache.Valid() && cache.OnlyGrew()
    ensures send == WithId(recv, clientId)
    ensures cache.Items() ==
            if useCache then Put(old(cache.Items()), cache.capacity, KeyOf(recv.questions[0]), ValueOf(recv), now)
            else old(cache.Items())
  {
    send := WithId(recv, clientId);
    if !useCache {
      return;
    }
    var q := recv.questions[0];
    cache.Put(q.qname, q.qtype, q.qclass, CacheValue(send.header.answers, send.header.authorities, send.header.additionals, recv.records), now);
  }

  /** What was just put is found, until it expires. */
  lemma PutIsFound(c: nat, s: seq<Item>, k: Key, v: CacheValue, t: int, later: int)
    requires c >= 1
    ensures Lookup(Put(s, c, k, v, t), k, later) == if Expired(Item(k, v, t), later) then None else Some(v)
  {
    var s' := Put(s, c, k, v, t);
    assert s'[0] == Item(k, v, t);
    FrontKey(s'[0], s'[1..], k);
    assert s' == [s'[0]] + s'[1..];
  }

  /** No record has outlived its ttl. */
  ghost predicate Lasting(records: seq<Record>, created: int, now: int) {
    created <= now && forall r | r in records :: r.ttl == 4294967295 || now - created < 1000 * r.ttl
  }

  lemma LastingIsUnexpired(e: Item, now: int)
    requires e.createdAt <= now
    ensures Lasting(e.value.rrs, e.createdAt, now) <==> !Expired(e, now)
  {
    ExpiryIsMonotone(e, now, now);
    if !Expired(e, now) {
      forall r | r in e.value.rrs
        ensures r.ttl == 4294967295 || now - e.createdAt < 1000 * r.ttl
      {
        var i :| 0 <= i < |e.value.rrs| && e.value.rrs[i] == r;
      }
    }
  }

  /** An answer relayed once is served from the cache to whoever asks the same question, with the same
      counts and records, until a ttl runs out or a name is blocked, whatever reads and prunes come in
      between. */
  lemma RelayedThenServed(c: nat, s: seq<Item>, recv: Packet, t: int, ops: seq<Op>, query: Packet, now: int, later: int)
    requires Sane(s, c) && recv.questions != [] && ReadsUntil(ops, now) && now <= later
    requires Readable(query) && query.header.flags / 0x1000 == 0 && query.questions == [recv.questions[0]]
    requires Lasting(recv.records, t, later)
    ensures var q := recv.questions[0];
            var s' := Put(s, c, KeyOf(q), ValueOf(recv), t);
            var r := LocalAnswer(Run(c, s', ops), query, now, later);
            r.Some? &&
            if Blocked(s', q, now) then Responds(r.value, query, 3) && NoRecords(r.value)
            else Responds(r.value, query, 0) && r.value.records == recv.records &&
                 r.value.header.answers == recv.header.answers &&
                 r.value.header.authorities == recv.header.authorities &&
                 r.value.header.additionals == recv.header.additionals
  {
    hide MakeResponseFail, MakeStdResponseLocal, Lasting, OpcodeGet, Responds;
    var q := recv.questions[0];
    var k, v := KeyOf(q), ValueOf(recv);
    var s' := Put(s, c, k, v, t);
    OpcodeOneBitHigh(query.header.flags);
    FailureResponse(query, 3);
    StdResponse(query, v);
    LastingMeansCreated(recv.records, t, later);
    LastingIsUnexpired(Item(k, v, t), later);
    StepKeeps(c, s, PutOp(k, v, t));
    PutIsFound(c, s, k, v, t, later);
    ReadsLater(ops, now, later);
    ReadsAreTransparent(c, s', ops, k, later);
    BlockedAfterAll(c, s', ops, q, now);
  }

  lemma LastingMeansCreated(records: seq<Record>, created: int, now: int)
    requires Lasting(records, created, now)
    ensures created <= now
  {
  }

  lemma BlockedAfterAll(c: nat, s: seq<Item>, ops: seq<Op>, q: Question, now: int)
    requires Sane(s, c) && ReadsUntil(ops, now)
    ensures Blocked(Run(c, s, ops), q, now) == Blocked(s, q, now)
  {
    forall i: nat | i < Depth(q.qname)
      ensures BlockedAt(Run(c, s, ops), q, i, now) == BlockedAt(s, q, i, now)
    {
      BlockedAfterReads(c, s, ops, q, i, now);
    }
  }

  /** An upstream answer with a zero address is itself relayed, but from then on, until a ttl runs out, a
      query for its name or any name below it, of that type and class, is refused with code 3. */
  lemma RelayedZeroBlocksBelow(c: nat, s: seq<Item>, recv: Packet, rr: Record, t: int, query: Packet, i: nat, now: int, later: int)
    requires Sane(s, c) && recv.questions != [] && Lasting(recv.records, t, now)
    requires rr in recv.records && (rr.rtype == 1 || rr.rtype == 28) && forall j | 1 <= j < |rr.rdata| :: rr.rdata[j] == 0
    requires Readable(query) && query.header.flags / 0x1000 == 0 && query.header.qcount == 1
    requires i < Depth(query.questions[0].qname)
    requires query.questions[0].(qname := Ancestor(query.questions[0].qname, i)) == recv.questions[0]
    ensures var r := LocalAnswer(Put(s, c, KeyOf(recv.questions[0]), ValueOf(recv), t), query, now, later);
            r.Some? && r.value.header.flags % 0x10 == 3 && r.value.records == []
  {
    hide LocalAnswer, AnswersName, Expired, Depth, Ancestor, Carries, CacheKey.Print, Distinct, Lasting;
    var q, k, v := query.questions[0], KeyOf(recv.questions[0]), ValueOf(recv);
    var s' := Put(s, c, k, v, t);
    StepKeeps(c, s, PutOp(k, v, t));
    LastingMeansCreated(recv.records, t, now);
    LastingIsUnexpired(Item(k, v, t), now);
    LocalAnswerExact(s', query, now, later);
    assert s'[0] == Item(k, v, t);
    assert ZeroAddress(rr);
    assert BlocksName(s'[0], q, now);
  }
}
