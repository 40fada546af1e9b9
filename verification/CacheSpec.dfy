/**
 The DNS cache of src/dns/dns_cache.c as a sequence of entries, the most recently used first: what
 put, get and prune do to it, and what any history of them guarantees.
 */
module CacheSpec {
  import opened Common
  import opened Messages

  type Key = seq<byte>

  /** The answer, authority and additional records of one question, in this order in `rrs`. */
  datatype CacheValue = CacheValue(answers: uint16, authorities: uint16, additionals: uint16, rrs: seq<Record>)

  datatype Item = Item(key: Key, value: CacheValue, createdAt: int)

  /** The ttl that never runs out, `UINT32_MAX`. */
  const FOREVER: uint32 := 0xFFFF_FFFF

  /** C division by 1000, rounding towards zero. */
  function ToSeconds(ms: int): int {
    if ms >= 0 then ms / 1000 else -(-ms / 1000)
  }

  predicate RecordExpired(r: Record, age: int) {
    r.ttl != FOREVER && ToSeconds(age) >= r.ttl
  }

  /** One expired record expires the whole entry. */
  predicate Expired(e: Item, now: int) {
    exists i :: 0 <= i < |e.value.rrs| && RecordExpired(e.value.rrs[i], now - e.createdAt)
  }

  /** Once expired, expired ever after; and with the clock not before creation, expiry is elapsed
      milliseconds against 1000 times the ttl of some record whose ttl is not 4294967295. */
  lemma ExpiryIsMonotone(e: Item, now: int, later: int)
    requires now <= later
    ensures Expired(e, now) ==> Expired(e, later)
    ensures e.createdAt <= now ==>
              (Expired(e, now) <==>
               exists i :: 0 <= i < |e.value.rrs| && e.value.rrs[i].ttl != 4294967295 &&
                           now - e.createdAt >= 1000 * e.value.rrs[i].ttl)
  {
    assert ToSeconds(now - e.createdAt) <= ToSeconds(later - e.createdAt);
    forall i | 0 <= i < |e.value.rrs| && RecordExpired(e.value.rrs[i], now - e.createdAt)
      ensures RecordExpired(e.value.rrs[i], later - e.createdAt)
    {
    }
    if e.createdAt <= now {
      forall i | 0 <= i < |e.value.rrs|
        ensures RecordExpired(e.value.rrs[i], now - e.createdAt) <==>
                e.value.rrs[i].ttl != 4294967295 && now - e.createdAt >= 1000 * e.value.rrs[i].ttl
      {
      }
    }
  }

  // ---------- the operations ----------

  function Keep(s: seq<Item>, p: Item -> bool): (r: seq<Item>)
    ensures |r| <= |s|
    ensures forall e :: e in r <==> e in s && p(e)
  {
    if s == [] then [] else (if p(s[0]) then [s[0]] else []) + Keep(s[1..], p)
  }

  function OtherThan(k: Key): Item -> bool {
    (e: Item) => e.key != k
  }

  function Fresh(now: int): Item -> bool {
    (e: Item) => !Expired(e, now)
  }

  predicate HasKey(s: seq<Item>, k: Key) {
    exists i :: 0 <= i < |s| && s[i].key == k
  }

  /** The entry under a key; the first one, though there is never a second. */
  function Entry(s: seq<Item>, k: Key): (e: Item)
    requires HasKey(s, k)
    ensures e in s && e.key == k
  {
    if s[0].key == k then s[0] else Entry(s[1..], k)
  }

  predicate Distinct(s: seq<Item>) {
    forall i, j | 0 <= i < j < |s| :: s[i].key != s[j].key
  }

  /** `dns_cache_put`: it renews or adds the entry in front; a full cache first loses its coldest.
      (It does not prune, whatever its comment says.) */
  function Put(s: seq<Item>, capacity: nat, k: Key, v: CacheValue, now: int): seq<Item>
    requires capacity >= 1
  {
    if HasKey(s, k) then [Item(k, v, now)] + Keep(s, OtherThan(k))
    else [Item(k, v, now)] + if |s| >= capacity then s[..|s| - 1] else s
  }

  predicate Hit(s: seq<Item>, k: Key, now: int) {
    HasKey(s, k) && !Expired(Entry(s, k), now)
  }

  function Lookup(s: seq<Item>, k: Key, now: int): Option<CacheValue> {
    if Hit(s, k, now) then Some(Entry(s, k).value) else None
  }

  /** `dns_cache_get`: a hit moves to the front, an expired entry goes. */
  function Get(s: seq<Item>, k: Key, now: int): seq<Item> {
    if !HasKey(s, k) then s
    else if Expired(Entry(s, k), now) then Keep(s, OtherThan(k))
    else [Entry(s, k)] + Keep(s, OtherThan(k))
  }

  function Prune(s: seq<Item>, now: int): seq<Item> {
    Keep(s, Fresh(now))
  }

  datatype Op = PutOp(key: Key, value: CacheValue, now: int) | GetOp(key: Key, now: int) | PruneOp(now: int)

  function Step(capacity: nat, s: seq<Item>, op: Op): seq<Item>
    requires capacity >= 1
  {
    match op
    case PutOp(k, v, now) => Put(s, capacity, k, v, now)
    case GetOp(k, now) => Get(s, k, now)
    case PruneOp(now) => Prune(s, now)
  }

  function Run(capacity: nat, s: seq<Item>, ops: seq<Op>): seq<Item>
    requires capacity >= 1
  {
    if ops == [] then s else Step(capacity, Run(capacity, s, ops[..|ops| - 1]), ops[|ops| - 1])
  }

  // ---------- what filtering does ----------

  lemma InFront(e: Item, s: seq<Item>)
    requires Distinct(s) && forall x | x in s :: x.key != e.key
    ensures Distinct([e] + s)
  {
    var r := [e] + s;
    forall i, j | 0 <= i < j < |r|
      ensures r[i].key != r[j].key
    {
      assert r[j] == s[j - 1] && s[j - 1] in s;
      assert i > 0 ==> r[i] == s[i - 1];
    }
  }

  lemma {:induction false} KeepDistinct(s: seq<Item>, p: Item -> bool)
    requires Distinct(s)
    ensures Distinct(Keep(s, p))
  {
    if s != [] {
      KeepDistinct(s[1..], p);
      assert forall e | e in s[1..] :: e.key != s[0].key;
      InFront(s[0], Keep(s[1..], p));
    }
  }

  lemma {:induction false} KeepAll(s: seq<Item>, p: Item -> bool)
    requires forall e | e in s :: p(e)
    ensures Keep(s, p) == s
  {
    if s != [] {
      KeepAll(s[1..], p);
    }
  }

  lemma KeepFront(e: Item, s: seq<Item>, p: Item -> bool)
    ensures Keep([e] + s, p) == (if p(e) then [e] else []) + Keep(s, p)
  {
    assert ([e] + s)[1..] == s;
  }

  lemma {:induction false} KeepTwice(s: seq<Item>, p: Item -> bool, q: Item -> bool)
    ensures Keep(Keep(s, p), q) == Keep(Keep(s, q), p)
  {
    if s != [] {
      var e, rest := s[0], s[1..];
      KeepTwice(rest, p, q);
      KeepFront(e, Keep(rest, p), q);
      KeepFront(e, Keep(rest, q), p);
      assert Keep(s, p) == if p(e) then [e] + Keep(rest, p) else Keep(rest, p);
      assert Keep(s, q) == if q(e) then [e] + Keep(rest, q) else Keep(rest, q);
    }
  }

  lemma {:induction false} EntryUnique(s: seq<Item>, e: Item)
    requires Distinct(s) && e in s
    ensures HasKey(s, e.key) && Entry(s, e.key) == e
  {
    if s[0] != e {
      var i :| 0 <= i < |s| && s[i] == e;
      assert s[1..][i - 1] == e;
      EntryUnique(s[1..], e);
    }
  }

  lemma {:induction false} WithoutOne(s: seq<Item>, k: Key)
    requires Distinct(s) && HasKey(s, k)
    ensures |Keep(s, OtherThan(k))| == |s| - 1
  {
    if s[0].key == k {
      KeepAll(s[1..], OtherThan(k));
    } else {
      assert HasKey(s[1..], k) by {
        var i :| 0 <= i < |s| && s[i].key == k;
        assert s[1..][i - 1].key == k;
      }
      WithoutOne(s[1..], k);
    }
  }

  /** What every operation keeps: keys stay distinct, the size within the capacity. */
  lemma StepKeeps(capacity: nat, s: seq<Item>, op: Op)
    requires capacity >= 1 && Distinct(s) && |s| <= capacity
    ensures Distinct(Step(capacity, s, op)) && |Step(capacity, s, op)| <= capacity
  {
    match op
    case PutOp(k, v, now) =>
      if HasKey(s, k) {
        KeepDistinct(s, OtherThan(k));
        WithoutOne(s, k);
        InFront(Item(k, v, now), Keep(s, OtherThan(k)));
      } else {
        InFront(Item(k, v, now), if |s| >= capacity then s[..|s| - 1] else s);
      }
    case GetOp(k, now) =>
      if HasKey(s, k) {
        KeepDistinct(s, OtherThan(k));
        WithoutOne(s, k);
        InFront(Entry(s, k), Keep(s, OtherThan(k)));
      }
    case PruneOp(now) =>
      KeepDistinct(s, Fresh(now));
  }
}
