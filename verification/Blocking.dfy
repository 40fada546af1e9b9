/**
 The resolver's own answers (src/dns/dns_resolver.c): which names are blocked, what is answered from
 the cache, and what goes upstream.
 */
module Blocking {
  import opened Common
  import opened Names
  import opened Messages
  import opened Responses
  import opened CacheSpec
  import opened CacheTheorems
  import CacheKey
  import opened Cache

  // ---------- the zero test ----------

  ghost predicate AllZero(mem: seq<byte>) {
    forall i | 0 <= i < |mem| :: mem[i] == 0
  }

  /** What `memallz` accepts as written: its loop never looks at the first byte's value. */
  ghost predicate ZeroPastFirst(mem: seq<byte>) {
    forall i | 1 <= i < |mem| :: mem[i] == 0
  }

  /** `memallz`. The loop leaves with `len` at the last non-zero byte, or at zero. */
  method MemAllZ(mem: seq<byte>) returns (r: bool)
    ensures r <==> ZeroPastFirst(mem)
  {
    var len := |mem|;
    while len > 0
      invariant 0 <= len <= |mem| && forall i | len <= i < |mem| :: mem[i] == 0
    {
      len := len - 1;
      if mem[len] != 0 {
        break;
      }
    }
    return len == 0;
  }

  /** The test is the intended one except on a non-zero first byte followed by zeros only. */
  lemma MemAllZExact(mem: seq<byte>)
    ensures (ZeroPastFirst(mem) <==> AllZero(mem)) <==> !(mem != [] && mem[0] != 0 && AllZero(mem[1..]))
  {
    if mem != [] {
      assert forall i | 1 <= i < |mem| :: mem[i] == mem[1..][i - 1];
    }
  }

  /** The address 1.0.0.0 counts as zero. */
  lemma MemAllZFails()
    ensures ZeroPastFirst([1, 0, 0, 0]) && !AllZero([1, 0, 0, 0])
  {
    var mem: seq<byte> := [1, 0, 0, 0];
    assert mem[0] == 1;
  }

  // ---------- the names looked at ----------

  /** `get_parent_qname`: the name without its first label, if that leaves any. */
  function GetParentQname(qname: seq<byte>): (parent: Option<seq<byte>>) {
    if qname == [] || qname[0] >= 192 then None
    else
      var rest: nat := 1 + qname[0];
      if rest >= |qname| then None else Some(qname[rest..])
  }

  /** The walk over length bytes stays within the string and its final zero; the C code does not check. */
  predicate Walkable(qname: seq<byte>) {
    qname == [] || qname[0] >= 192 || (1 + qname[0] <= |qname| && Walkable(qname[1 + qname[0]..]))
  }

  /** The number of names looked at: the name itself and its parents. */
  ghost function Depth(qname: seq<byte>): (d: nat)
    ensures d >= 1
    decreases |qname|
  {
    var parent := GetParentQname(qname);
    if parent.None? then 1 else 1 + Depth(parent.value)
  }

  /** The `i`-th name looked at. */
  ghost function Ancestor(qname: seq<byte>, i: nat): seq<byte>
    requires i < Depth(qname)
    decreases i
  {
    if i == 0 then qname else Ancestor(GetParentQname(qname).value, i - 1)
  }

  /** Walking to parents lists these names in order, and then ends. */
  lemma {:induction false} ParentsInOrder(qname: seq<byte>, i: nat)
    requires i < Depth(qname)
    ensures GetParentQname(Ancestor(qname, i)) ==
            if i + 1 < Depth(qname) then Some(Ancestor(qname, i + 1)) else None
    decreases i
  {
    if i > 0 {
      ParentsInOrder(GetParentQname(qname).value, i - 1);
    }
  }

  /** Of a name made of labels, they are the name without its first labels, one more each time, ending
      before the root; and the walk stays within it. */
  lemma {:induction false} AncestorsDropLabels(qname: seq<byte>, i: nat)
    requires LabelChain(qname) && i < Depth(qname)
    ensures Walkable(qname)
    ensures Depth(qname) == if qname == [] then 1 else |LabelsOf(qname)|
    ensures Ancestor(qname, i) == Wire(LabelsOf(qname)[i..])
    decreases |qname|
  {
    WireOfLabelsOf(qname);
    assert LabelsOf(qname)[0..] == LabelsOf(qname);
    if qname != [] {
      var rest := qname[1 + qname[0]..];
      AncestorsDropLabels(rest, if i == 0 then 0 else i - 1);
      assert LabelsOf(qname) == [qname[1..1 + qname[0]]] + LabelsOf(rest);
      if i > 0 {
        assert LabelsOf(qname)[i..] == LabelsOf(rest)[i - 1..];
      }
    }
  }

  // ---------- the decision ----------

  function KeyOf(q: Question): Key {
    CacheKey.Print(q.qclass, q.qtype, q.qname)
  }

  ghost predicate BlockingRecord(r: Record) {
    (r.rtype == QTYPE_A || r.rtype == QTYPE_AAAA) && ZeroPastFirst(r.rdata)
  }

  ghost predicate BlockingValue(v: CacheValue) {
    exists i :: 0 <= i < |v.rrs| && BlockingRecord(v.rrs[i])
  }

  /** The cache holds an unexpired entry with a blocking record for the `i`-th ancestor. */
  ghost predicate BlockedAt(s: seq<Item>, q: Question, i: nat, now: int)
    requires i < Depth(q.qname)
  {
    var found := Lookup(s, KeyOf(q.(qname := Ancestor(q.qname, i))), now);
    found.Some? && BlockingValue(found.value)
  }

  /** The name or one of its non-empty parents is blocked. */
  ghost predicate Blocked(s: seq<Item>, q: Question, now: int)
  {
    exists i: nat :: i < Depth(q.qname) && BlockedAt(s, q, i, now)
  }

  // ---------- reads leave lookups alone ----------

  lemma KeptKey(s: seq<Item>, p: Item -> bool, k: Key)
    requires Distinct(s)
    ensures HasKey(Keep(s, p), k) <==> HasKey(s, k) && p(Entry(s, k))
    ensures HasKey(Keep(s, p), k) ==> Entry(Keep(s, p), k) == Entry(s, k)
  {
    var r := Keep(s, p);
    KeepDistinct(s, p);
    if HasKey(r, k) {
      EntryUnique(s, Entry(r, k));
    }
    if HasKey(s, k) && p(Entry(s, k)) {
      EntryUnique(r, Entry(s, k));
    }
  }

  lemma ReadKeepsLookup(c: nat, s: seq<Item>, op: Op, k: Key, t: int)
    requires Sane(s, c) && !op.PutOp? && op.now <= t
    ensures Lookup(Step(c, s, op), k, t) == Lookup(s, k, t)
  {
    hide Keep, Expired, Distinct;
    assert Distinct(s) by {
      SaneMeans(s, c);
    }
    match op
    case PruneOp(now) =>
      KeptKey(s, Fresh(now), k);
      if HasKey(s, k) {
        ExpiryIsMonotone(Entry(s, k), now, t);
      }
    case GetOp(j, now) =>
      KeptKey(s, OtherThan(j), k);
      if HasKey(s, j) {
        var e, rest := Entry(s, j), Keep(s, OtherThan(j));
        ExpiryIsMonotone(e, now, t);
        FrontKey(e, rest, k);
      }
  }

  lemma SaneMeans(s: seq<Item>, c: nat)
    requires Sane(s, c)
    ensures Distinct(s)
  {
  }

  lemma FrontKey(e: Item, s: seq<Item>, k: Key)
    ensures HasKey([e] + s, k) <==> e.key == k || HasKey(s, k)
    ensures HasKey([e] + s, k) ==> Entry([e] + s, k) == if e.key == k then e else Entry(s, k)
  {
    assert ([e] + s)[1..] == s;
    if e.key == k {
      assert ([e] + s)[0].key == k;
    } else if HasKey(s, k) {
      var i :| 0 <= i < |s| && s[i].key == k;
      assert ([e] + s)[i + 1].key == k;
    }
  }

  ghost predicate ReadsUntil(ops: seq<Op>, t: int) {
    forall op | op in ops :: !op.PutOp? && op.now <= t
  }

  /** Whatever gets and prunes run, however they interleave, a lookup later finds what it would have. */
  lemma {:induction false} ReadsAreTransparent(c: nat, s: seq<Item>, ops: seq<Op>, k: Key, t: int)
    requires Sane(s, c) && ReadsUntil(ops, t)
    ensures Lookup(Run(c, s, ops), k, t) == Lookup(s, k, t)
    decreases |ops|
  {
    hide Sane, Lookup, Step;
    if ops != [] {
      var before, op := ops[..|ops| - 1], ops[|ops| - 1];
      ReadsAreTransparent(c, s, before, k, t);
      RunKeepsSane(c, s, before);
      ReadKeepsLookup(c, Run(c, s, before), op, k, t);
    }
  }

  lemma BlockedAfterReads(c: nat, s: seq<Item>, ops: seq<Op>, q: Question, i: nat, now: int)
    requires Sane(s, c) && ReadsUntil(ops, now) && i < Depth(q.qname)
    ensures BlockedAt(Run(c, s, ops), q, i, now) == BlockedAt(s, q, i, now)
  {
    ReadsAreTransparent(c, s, ops, KeyOf(q.(qname := Ancestor(q.qname, i))), now);
  }

  // ---------- looking before answering ----------

  /** Whether the pruning thread gets its turn before the i-th cache access of a query. */
  type Schedule = nat -> bool

  /** The first `n` cache accesses of a walk to the parents, with the prunes between them. */
  ghost function Walk(q: Question, now: int, prunes: Schedule, n: nat): seq<Op>
    requires n <= Depth(q.qname)
  {
    if n == 0 then []
    else Walk(q, now, prunes, n - 1) + Access(KeyOf(q.(qname := Ancestor(q.qname, n - 1))), now, prunes(n - 1))
  }

  lemma {:induction false} WalkReads(q: Question, now: int, prunes: Schedule, n: nat)
    requires n <= Depth(q.qname)
    ensures ReadsUntil(Walk(q, now, prunes, n), now)
  {
    if n > 0 {
      WalkReads(q, now, prunes, n - 1);
    }
  }

  lemma RunOne(c: nat, s: seq<Item>, ops: seq<Op>, op: Op)
    requires c >= 1
    ensures Run(c, s, ops + [op]) == Step(c, Run(c, s, ops), op)
  {
    assert (ops + [op])[..|ops|] == ops;
  }

  /** The body of the loop of `query_pre_validate` over the records of one entry. */
  method FindBlocking(rrs: seq<Record>, count: nat) returns (found: bool)
    requires count <= |rrs|
    ensures found <==> exists i :: 0 <= i < count && BlockingRecord(rrs[i])
    ensures found <==> exists i :: 0 <= i < count && (rrs[i].rtype == 1 || rrs[i].rtype == 28) &&
                                   forall j | 1 <= j < |rrs[i].rdata| :: rrs[i].rdata[j] == 0
  {
    for i := 0 to count
      invariant forall j | 0 <= j < i :: !BlockingRecord(rrs[j])
    {
      if rrs[i].rtype == QTYPE_A || rrs[i].rtype == QTYPE_AAAA {
        var zero := MemAllZ(rrs[i].rdata);
        if zero {
          return true;
        }
      }
    }
    return false;
  }

  ghost function Access(key: Key, now: int, prune: bool): seq<Op> {
    (if prune then [PruneOp(now)] else []) + [GetOp(key, now)]
  }

  /** One cache access, with the prune that may come first, after other reads: it finds what it would
      have found without them. */
  method Read(cache: DnsCache, q: Question, now: int, prune: bool, ghost s: seq<Item>, ghost ops: seq<Op>)
    returns (result: Option<CacheValue>)
    requires cache.Valid() && Sane(s, cache.capacity)
    requires cache.Items() == Run(cache.capacity, s, ops) && ReadsUntil(ops, now)
    modifies cache, cache.Nodes()
    ensures cache.Valid() && forall e | e in cache.Nodes() :: e in old(cache.Nodes())
    ensures cache.Items() == Run(cache.capacity, s, ops + Access(KeyOf(q), now, prune))
    ensures result == Lookup(s, KeyOf(q), now)
  {
    hide Run, Sane, Lookup, CacheSpec.Get, CacheSpec.Prune, DnsCache.Items, DnsCache.Linked, DnsCache.Agrees;
    ghost var done, key, c := ops, KeyOf(q), cache.capacity;
    if prune {
      cache.Prune(now);
      RunOne(c, s, ops, PruneOp(now));
      done := ops + [PruneOp(now)];
    }
    assert cache.Items() == Run(c, s, done);
    result := cache.Get(q.qname, q.qtype, q.qclass, now);
    RunOne(c, s, done, GetOp(key, now));
    ReadsAreTransparent(c, s, done, key, now);
    assert ops + Access(key, now, prune) == done + [GetOp(key, now)];
  }

  /** The cache access number `n` of a walk. */
  method LookAt(cache: DnsCache, q: Question, qname: seq<byte>, now: int, prunes: Schedule, n: nat, ghost s: seq<Item>)
    returns (result: Option<CacheValue>)
    requires cache.Valid() && n < Depth(q.qname) && qname == Ancestor(q.qname, n)
    requires cache.Items() == Run(cache.capacity, s, Walk(q, now, prunes, n)) && Sane(s, cache.capacity)
    modifies cache, cache.Nodes()
    ensures cache.Valid() && forall e | e in cache.Nodes() :: e in old(cache.Nodes())
    ensures cache.Items() == Run(cache.capacity, s, Walk(q, now, prunes, n + 1))
    ensures result == Lookup(s, KeyOf(q.(qname := qname)), now)
    ensures (result.Some? && BlockingValue(result.value)) <==> BlockedAt(s, q, n, now)
  {
    WalkReads(q, now, prunes, n);
    result := Read(cache, q.(qname := qname), now, prunes(n), s, Walk(q, now, prunes, n));
  }

  /** How many names are looked at, from the `i`-th on: up to the first blocked one. */
  ghost function Looked(s: seq<Item>, q: Question, now: int, i: nat): nat
    requires i <= Depth(q.qname)
    decreases Depth(q.qname) - i
  {
    if i == Depth(q.qname) then i
    else if BlockedAt(s, q, i, now) then i + 1
    else Looked(s, q, now, i + 1)
  }

  lemma {:induction false} LookedWithin(s: seq<Item>, q: Question, now: int, i: nat)
    requires i <= Depth(q.qname)
    ensures i <= Looked(s, q, now, i) <= Depth(q.qname)
    decreases Depth(q.qname) - i
  {
    if i < Depth(q.qname) && !BlockedAt(s, q, i, now) {
      LookedWithin(s, q, now, i + 1);
    }
  }

  lemma CacheIsSane(cache: DnsCache)
    requires cache.Valid()
    ensures Sane(cache.Items(), cache.capacity)
  {
    cache.Lookups([]);
  }

  /** `query_pre_validate`: the verdict on the first question, and what looking it up does to the cache. */
  method QueryPreValidate(cache: DnsCache, q: Question, now: int, prunes: Schedule) returns (rcode: nat, n: nat)
    requires cache.Valid() && Walkable(q.qname)
    modifies cache, cache.Nodes()
    ensures cache.Valid() && forall e | e in cache.Nodes() :: e in old(cache.Nodes())
    ensures rcode == if Blocked(old(cache.Items()), q, now) then 3 else 0
    ensures n == Looked(old(cache.Items()), q, now, 0) <= Depth(q.qname)
    ensures cache.Items() == Run(cache.capacity, old(cache.Items()), Walk(q, now, prunes, n))
  {
    hide Run, Sane, Depth, Ancestor, BlockedAt, BlockingValue, BlockingRecord, GetParentQname, Lookup, DnsCache.Items, DnsCache.Linked, DnsCache.Agrees;
    ghost var s := cache.Items();
    CacheIsSane(cache);
    n := 0;
    NothingWalked(cache.capacity, s, q, now, prunes);
    var parent := Some(q.qname);
    while parent.Some?
      invariant cache.Valid() && forall e | e in cache.Nodes() :: e in old(cache.Nodes())
      invariant n <= Depth(q.qname)
      invariant parent == if n < Depth(q.qname) then Some(Ancestor(q.qname, n)) else None
      invariant forall i: nat | i < n :: !BlockedAt(s, q, i, now)
      invariant Looked(s, q, now, 0) == Looked(s, q, now, n)
      invariant cache.Items() == Run(cache.capacity, s, Walk(q, now, prunes, n))
      decreases Depth(q.qname) - n
    {
      var value := LookAt(cache, q, parent.value, now, prunes, n, s);
      ParentsInOrder(q.qname, n);
      if value.Some? {
        var found := FindBlocking(value.value.rrs, |value.value.rrs|);
        BlockingMeans(value.value);
        if found {
          return RCODE_NXDOMAIN, n + 1;
        }
      }
      parent := GetParentQname(parent.value);
      n := n + 1;
    }
    return RCODE_NOERROR, n;
  }

  lemma NothingWalked(c: nat, s: seq<Item>, q: Question, now: int, prunes: Schedule)
    requires c >= 1
    ensures Run(c, s, Walk(q, now, prunes, 0)) == s
    ensures Ancestor(q.qname, 0) == q.qname
  {
  }

  lemma BlockingMeans(v: CacheValue)
    ensures BlockingValue(v) <==> exists i :: 0 <= i < |v.rrs| && BlockingRecord(v.rrs[i])
  {
  }

  /** `query_post_validate`: over the answer records only; the code is overwritten or left. */
  method QueryPostValidate(response: Packet, rcode: nat) returns (code: nat)
    requires response.header.answers <= |response.records|
    ensures code == if exists i :: 0 <= i < response.header.answers && BlockingRecord(response.records[i])
                    then 3 else rcode
  {
    var found := FindBlocking(response.records, response.header.answers);
    code := if found then RCODE_NXDOMAIN else rcode;
  }

  // ---------- answering ----------

  /** `pack_make_std_response_local`: the question with the cached records. */
  function MakeStdResponseLocal(query: Packet, value: CacheValue): Packet {
    var p := MakeResponseEmpty(query);
    p.(header := p.header.(answers := value.answers, authorities := value.authorities, additionals := value.additionals),
       records := value.rrs)
  }

  /** What a query is answered without asking upstream, if anything. The names are checked at `now`,
      the answer is read at `later`. There is no check of the answer itself. */
  ghost function LocalAnswer(s: seq<Item>, query: Packet, now: int, later: int): Option<Packet>
    requires Readable(query)
  {
    var opcode := OpcodeGet(query.header.flags);
    if opcode == 1 || opcode == 2 then Some(MakeResponseFail(query, RCODE_NOTIMP))
    else if opcode != 0 then Some(MakeResponseEmpty(query))
    else if query.header.qcount > 1 then Some(MakeResponseFail(query, RCODE_NOTIMP))
    else if query.header.qcount == 0 then Some(MakeResponseEmpty(query))
    else
      var q := query.questions[0];
      var found := Lookup(s, KeyOf(q), later);
      if Blocked(s, q, now) then Some(MakeResponseFail(query, RCODE_NXDOMAIN))
      else if found.Some? then Some(MakeStdResponseLocal(query, found.value))
      else if RdGet(query.header.flags) then None
      else Some(MakeResponseEmpty(query))
  }

  /** As parsed: the question list has its announced length; and walking to parents stays in the name. */
  ghost predicate Readable(query: Packet) {
    |query.questions| == query.header.qcount && forall q | q in query.questions :: Walkable(q.qname)
  }

  /** The cache accesses of a query, in order. */
  ghost function Accesses(s: seq<Item>, query: Packet, now: int, later: int, prunes: Schedule): seq<Op>
    requires Readable(query)
  {
    if OpcodeGet(query.header.flags) != 0 || query.header.qcount != 1 then []
    else
      var q := query.questions[0];
      LookedWithin(s, q, now, 0);
      var n := Looked(s, q, now, 0);
      var walk := Walk(q, now, prunes, n);
      if Blocked(s, q, now) then walk
      else walk + Access(KeyOf(q), later, prunes(n))
  }

  /** Every entry has at least the answer records it announces. */
  ghost predicate Counted(s: seq<Item>) {
    forall e | e in s :: e.value.answers <= |e.value.rrs|
  }

  /** The names passed the check at `now`; then an answer found later holds no blocking record. */
  lemma AnswersPass(s: seq<Item>, q: Question, now: int, later: int)
    requires now <= later && !Blocked(s, q, now)
    ensures var found := Lookup(s, KeyOf(q), later);
            found.Some? ==> !BlockingValue(found.value)
  {
    var k := KeyOf(q);
    assert q.(qname := Ancestor(q.qname, 0)) == q;
    assert !BlockedAt(s, q, 0, now);
    if HasKey(s, k) {
      ExpiryIsMonotone(Entry(s, k), now, later);
    }
  }

  /** `pack_try_response_local`; no response stands for the direction UPSTREAM. The check after the fact
      is made as the source makes it, and by `AnswersPass` never changes the response. */
  method PackTryResponseLocal(cache: DnsCache, query: Packet, now: int, later: int, prunes: Schedule)
    returns (response: Option<Packet>)
    requires cache.Valid() && Readable(query) && now <= later && Counted(cache.Items())
    modifies cache, cache.Nodes()
    ensures cache.Valid() && forall e | e in cache.Nodes() :: e in old(cache.Nodes())
    ensures response == LocalAnswer(old(cache.Items()), query, now, later)
    ensures cache.Items() == Run(cache.capacity, old(cache.Items()), Accesses(old(cache.Items()), query, now, later, prunes))
  {
    hide Run, Sane, Lookup, Counted, Blocked, Walk, OpcodeGet, RdGet, BlockingRecord, MakeResponseEmpty, DnsCache.Items, DnsCache.Linked, DnsCache.Agrees;
    ghost var s, c := cache.Items(), cache.capacity;
    RunNothing(c, s);
    CacheIsSane(cache);
    var opcode := OpcodeGet(query.header.flags);
    if opcode == 1 || opcode == 2 {
      return Some(MakeResponseFail(query, RCODE_NOTIMP));
    } else if opcode != 0 {
      return Some(MakeResponseEmpty(query));
    } else if query.header.qcount > 1 {
      return Some(MakeResponseFail(query, RCODE_NOTIMP));
    } else if query.header.qcount == 0 {
      return Some(MakeResponseEmpty(query));
    }
    var q := query.questions[0];
    var code, n := QueryPreValidate(cache, q, now, prunes);
    if code != RCODE_NOERROR {
      return Some(MakeResponseFail(query, code));
    }
    WalkReads(q, now, prunes, n);
    ReadsLater(Walk(q, now, prunes, n), now, later);
    var found := Read(cache, q, later, prunes(n), s, Walk(q, now, prunes, n));
    if found.None? {
      return if RdGet(query.header.flags) then None else Some(MakeResponseEmpty(query));
    }
    CountedFound(s, KeyOf(q), later);
    var answer := MakeStdResponseLocal(query, found.value);
    code := QueryPostValidate(answer, code);
    response := Some(if code != RCODE_NOERROR then MakeResponseFail(query, code) else answer);
    AnswersPass(s, q, now, later);
  }

  lemma CountedFound(s: seq<Item>, k: Key, now: int)
    requires Counted(s) && Lookup(s, k, now).Some?
    ensures Lookup(s, k, now).value.answers <= |Lookup(s, k, now).value.rrs|
  {
  }

  lemma RunNothing(c: nat, s: seq<Item>)
    requires c >= 1
    ensures Run(c, s, []) == s
  {
  }

  lemma ReadsLater(ops: seq<Op>, now: int, later: int)
    requires ReadsUntil(ops, now) && now <= later
    ensures ReadsUntil(ops, later)
  {
  }
}
