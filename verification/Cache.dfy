/** The cache module of src/dns/dns_cache.c: a table and a doubly linked recency list between two
    sentinels, as a refinement of the sequence in `CacheSpec`. */
module Cache {
  import opened Common
  import opened CacheSpec
  import opened CacheKey

  class CacheEntry {
    const key: Key
    var value: CacheValue
    var createdAt: int
    var hotter: CacheEntry?
    var colder: CacheEntry?

    constructor (key: Key, value: CacheValue, createdAt: int)
      ensures this.key == key && this.value == value && this.createdAt == createdAt
      ensures hotter == null && colder == null
    {
      this.key, this.value, this.createdAt := key, value, createdAt;
      hotter, colder := null, null;
    }

    ghost function AsItem(): Item
      reads `value, `createdAt
    {
      Item(key, value, createdAt)
    }
  }

  // ---------- chains as sequences ----------

  ghost function Without<T>(s: seq<T>, i: nat): seq<T>
    requires i < |s|
  {
    s[..i] + s[i + 1..]
  }

  ghost predicate NoRepeats<T>(s: seq<T>) {
    forall i, j | 0 <= i < j < |s| :: s[i] != s[j]
  }

  ghost function Index<T>(s: seq<T>, e: T): (i: nat)
    requires e in s
    ensures i < |s| && s[i] == e
  {
    if s[0] == e then 0 else 1 + Index(s[1..], e)
  }

  lemma DistinctTail(s: seq<Item>, i: nat)
    requires Distinct(s) && i < |s|
    ensures Distinct(s[1..]) && forall e | e in s[1..] :: e.key != s[0].key
    ensures i > 0 ==> s[1..][i - 1] == s[i] && s[i].key != s[0].key
  {
  }

  lemma WithoutTail<T>(s: seq<T>, i: nat)
    requires i < |s|
    ensures Without(s, i) == if i == 0 then s[1..] else [s[0]] + Without(s[1..], i - 1)
  {
  }

  /** Dropping the entry of a key is dropping its position. */
  lemma {:induction false} KeepIsWithout(s: seq<Item>, i: nat)
    requires Distinct(s) && i < |s|
    ensures Keep(s, OtherThan(s[i].key)) == Without(s, i)
  {
    hide Keep, Distinct, Without;
    DistinctTail(s, i);
    WithoutTail(s, i);
    assert s == [s[0]] + s[1..];
    KeepFront(s[0], s[1..], OtherThan(s[i].key));
    if i == 0 {
      KeepAll(s[1..], OtherThan(s[0].key));
    } else {
      KeepIsWithout(s[1..], i - 1);
    }
  }

  /** `here` is `was` with everything before position `kept` already pruned. */
  ghost predicate Pruned(was: seq<Item>, here: seq<Item>, kept: nat, now: int) {
    kept <= |here| && here[..kept] + Keep(here[kept..], Fresh(now)) == CacheSpec.Prune(was, now)
  }

  lemma PruneStarts(was: seq<Item>, now: int)
    ensures Pruned(was, was, 0, now)
  {
    assert was[0..] == was;
  }

  lemma PruneGoesOn(was: seq<Item>, here: seq<Item>, kept: nat, now: int)
    requires Pruned(was, here, kept, now) && kept < |here|
    ensures if Expired(here[kept], now) then Pruned(was, Without(here, kept), kept, now)
            else Pruned(was, here, kept + 1, now)
  {
    hide Keep, Expired, CacheSpec.Prune, Without;
    var e, rest := here[kept], here[kept + 1..];
    SplitAround(here, kept);
    KeepFront(e, rest, Fresh(now));
    if !Expired(e, now) {
      assert here[..kept] + ([e] + Keep(rest, Fresh(now))) == here[..kept + 1] + Keep(rest, Fresh(now));
    }
  }

  lemma SplitAround<T>(s: seq<T>, i: nat)
    requires i < |s|
    ensures s[i..] == [s[i]] + s[i + 1..] && s[..i + 1] == s[..i] + [s[i]]
    ensures |Without(s, i)| == |s| - 1 && Without(s, i)[..i] == s[..i] && Without(s, i)[i..] == s[i + 1..]
  {
  }

  lemma PruneEnds(was: seq<Item>, here: seq<Item>, now: int)
    requires Pruned(was, here, |here|, now)
    ensures here == CacheSpec.Prune(was, now)
  {
    assert here[..|here|] == here;
  }

  lemma KeysDiffer(s: seq<Item>, i: nat, j: nat)
    requires Distinct(s) && i < |s| && j < |s| && i != j
    ensures s[i].key != s[j].key
  {
  }

  lemma SameKeysDistinct(was: seq<Item>, s: seq<Item>)
    requires |was| == |s| && Distinct(was) && forall j | 0 <= j < |s| :: s[j].key == was[j].key
    ensures Distinct(s)
  {
  }

  lemma WithoutAt<T>(s: seq<T>, i: nat)
    requires i < |s|
    ensures |Without(s, i)| == |s| - 1
    ensures forall j | 0 <= j < |s| - 1 :: Without(s, i)[j] == s[if j < i then j else j + 1]
  {
  }

  lemma MovedUp<T>(was: seq<T>, s: seq<T>, i: nat)
    requires i < |was| == |s| && forall j | 1 <= j < |s| :: s[j] == was[if j - 1 < i then j - 1 else j]
    ensures s == [s[0]] + Without(was, i)
  {
  }

  lemma OneRenewed(was: seq<Item>, s: seq<Item>, i: nat)
    requires |was| == |s| && i < |s| && was[i].key == s[i].key && Distinct(was)
    requires forall j | 0 <= j < |s| && j != i :: s[j] == was[j]
    ensures Distinct(s) && Keep(s, OtherThan(s[i].key)) == Keep(was, OtherThan(s[i].key))
  {
    hide Keep, Distinct;
    SameKeysDistinct(was, s);
    KeepIsWithout(s, i);
    KeepIsWithout(was, i);
    assert Without(s, i) == Without(was, i);
  }

  lemma EntryAt(s: seq<Item>, i: nat)
    requires Distinct(s) && i < |s|
    ensures HasKey(s, s[i].key) && Entry(s, s[i].key) == s[i]
  {
    EntryUnique(s, s[i]);
  }

  ghost predicate Indexes(table: map<Key, CacheEntry>, chain: seq<CacheEntry>) {
    && (forall i | 0 <= i < |chain| :: chain[i].key in table && table[chain[i].key] == chain[i])
    && (forall k | k in table :: table[k] in chain && table[k].key == k)
  }

  lemma IndexesWithout(table: map<Key, CacheEntry>, chain: seq<CacheEntry>, i: nat)
    requires Indexes(table, chain) && NoRepeats(chain) && i < |chain|
    ensures Indexes(table - {chain[i].key}, Without(chain, i))
  {
    var t, c := table - {chain[i].key}, Without(chain, i);
    forall k | k in t
      ensures t[k] in c
    {
      var j :| 0 <= j < |chain| && chain[j] == table[k];
      assert c[if j < i then j else j - 1] == table[k];
    }
  }

  lemma IndexesFront(table: map<Key, CacheEntry>, chain: seq<CacheEntry>, e: CacheEntry)
    requires Indexes(table, chain) && e.key !in table
    ensures Indexes(table[e.key := e], [e] + chain)
  {
  }

  lemma IndexesMoved(table: map<Key, CacheEntry>, chain: seq<CacheEntry>, i: nat)
    requires Indexes(table, chain) && i < |chain|
    ensures Indexes(table, [chain[i]] + Without(chain, i))
  {
    var c := [chain[i]] + Without(chain, i);
    forall k | k in table
      ensures table[k] in c
    {
      var j :| 0 <= j < |chain| && chain[j] == table[k];
      assert j != i ==> c[if j < i then j + 1 else j] == table[k];
    }
  }

  class DnsCache {
    const head: CacheEntry
    const tail: CacheEntry
    const capacity: nat
    var table: map<Key, CacheEntry>
    var size: nat
    ghost var chain: seq<CacheEntry>  // from the hottest to the coldest

    ghost function Links(): seq<CacheEntry>
      reads `chain
    {
      [head] + chain + [tail]
    }

    ghost function Nodes(): set<CacheEntry>
      reads `chain
    {
      {head, tail} + set e | e in chain
    }

    /** Every new node is freshly allocated. */
    twostate predicate OnlyGrew()
      reads `chain
    {
      forall e | e in Nodes() :: e in old(Nodes()) || fresh(e)
    }

    /** Where nothing has been written, nothing has changed. */
    twostate lemma Untouched()
      requires unchanged(this) && forall e | e in old(Nodes()) :: unchanged(e)
      ensures Nodes() == old(Nodes()) && Items() == old(Items()) && (old(Valid()) ==> Valid())
    {
      hide Agrees;
      forall i | 0 <= i < |chain|
        ensures Items()[i] == old(Items()[i])
      {
        assert chain[i] in old(Nodes());
      }
      if old(Linked()) {
        forall i | 0 <= i < |Links()| - 1
          ensures Links()[i].colder == Links()[i + 1] && Links()[i + 1].hotter == Links()[i]
        {
          assert Links()[i] in old(Nodes()) && Links()[i + 1] in old(Nodes());
        }
      }
    }

    /** Neighbours point at each other, from the head sentinel to the tail sentinel. */
    ghost predicate Linked()
      reads `chain, Nodes()`hotter, Nodes()`colder
    {
      var l := Links();
      && NoRepeats(l)
      && (forall i | 0 <= i < |l| - 1 :: l[i].colder == l[i + 1] && l[i + 1].hotter == l[i])
    }

    /** The table holds exactly the entries of the chain, each under its own key. */
    ghost predicate Agrees()
      reads `table, `chain
    {
      Indexes(table, chain)
    }

    ghost predicate Valid()
      reads this, Nodes()`hotter, Nodes()`colder
    {
      Linked() && Agrees() && size == |chain| <= capacity && capacity >= 1
    }

    ghost function Items(): (s: seq<Item>)
      reads `chain, chain
      ensures |s| == |chain|
    {
      var c := chain;
      seq(|c|, i requires 0 <= i < |c| reads c => c[i].AsItem())
    }

    constructor (capacity: nat)
      requires capacity >= 1
      ensures Valid() && Items() == [] && this.capacity == capacity && fresh(Nodes())
    {
      head := new CacheEntry([], CacheValue(0, 0, 0, []), 0);
      tail := new CacheEntry([], CacheValue(0, 0, 0, []), 0);
      table, size, chain := map[], 0, [];
      this.capacity := capacity;
      new;
      head.colder := tail;
      tail.hotter := head;
    }

    lemma ItemsDistinct()
      requires Linked() && Agrees()
      ensures NoRepeats(chain) && Distinct(Items())
    {
      var l, s := Links(), Items();
      assert forall i | 0 <= i < |chain| :: l[i + 1] == chain[i];
      forall i, j | 0 <= i < j < |s|
        ensures s[i].key != s[j].key
      {
        assert l[i + 1] != l[j + 1];
      }
    }

    lemma ItemAt(i: nat)
      requires i < |chain|
      ensures Items()[i] == chain[i].AsItem()
    {
    }

    /** `lru_remove`. */
    method LruRemove(entry: CacheEntry, ghost i: nat)
      requires Linked() && i < |chain| && chain[i] == entry
      modifies this`chain, Nodes()`hotter, Nodes()`colder
      ensures Linked() && chain == Without(old(chain), i)
      ensures entry.hotter == null && entry.colder == null && entry !in Nodes()
    {
      ghost var l := Links();
      assert l[i + 1] == entry && l[i] in Nodes() && l[i + 2] in Nodes() && entry in Nodes();
      LinksWithout(i);
      if entry.hotter == null || entry.colder == null {
        return;
      }
      entry.hotter.colder := entry.colder;
      entry.colder.hotter := entry.hotter;
      entry.hotter := null;
      entry.colder := null;
      chain := Without(chain, i);
      ghost var m := Links();
      assert m == Without(l, i + 1);
      forall k | 0 <= k < |m| - 1
        ensures m[k].colder == m[k + 1] && m[k + 1].hotter == m[k]
      {
        assert m[k] == (if k <= i then l[k] else l[k + 1]) && m[k + 1] == (if k < i then l[k + 1] else l[k + 2]);
      }
    }

    /** Without one node the links still do not repeat, and it is among them no more. */
    lemma LinksWithout(i: nat)
      requires i < |chain| && NoRepeats(Links())
      ensures Without(Links(), i + 1) == [head] + Without(chain, i) + [tail]
      ensures NoRepeats(Without(Links(), i + 1)) && chain[i] !in Without(Links(), i + 1)
    {
      var l := Links();
      assert l[i + 1] == chain[i];
    }

    /** The second half of `lru_touch`: the entry goes behind the head sentinel. */
    method LruInsert(entry: CacheEntry)
      requires Linked() && entry !in Nodes()
      modifies this`chain, Nodes()`hotter, Nodes()`colder, entry`hotter, entry`colder
      ensures Linked() && chain == [entry] + old(chain)
    {
      ghost var l := Links();
      assert l[0] == head && l[1] in Nodes() && head in Nodes();
      entry.colder := head.colder;
      entry.hotter := head;
      head.colder.hotter := entry;
      head.colder := entry;
      chain := [entry] + chain;
      ghost var m := Links();
      assert m == [head, entry] + l[1..];
      forall k | 0 <= k < |m| - 1
        ensures m[k].colder == m[k + 1] && m[k + 1].hotter == m[k]
      {
        assert m[k + 1] == if k == 0 then entry else l[k];
        assert k > 1 ==> m[k] == l[k - 1];
      }
    }

    /** `lru_touch` of an entry of the chain: it is taken out first; then it goes to the front. */
    method LruTouch(entry: CacheEntry, ghost i: nat)
      requires Linked()
      requires if i < |chain| then chain[i] == entry
               else entry !in Nodes() && entry.hotter == null && entry.colder == null
      modifies this`chain, Nodes()`hotter, Nodes()`colder, entry`hotter, entry`colder
      ensures Linked()
      ensures chain == [entry] + if i < |old(chain)| then Without(old(chain), i) else old(chain)
    {
      if i < |chain| {
        InsideLinked(i);
      }
      if entry.hotter != null && entry.colder != null {
        LruRemove(entry, i);
      }
      LruInsert(entry);
    }

    lemma InsideLinked(i: nat)
      requires Linked() && i < |chain|
      ensures chain[i].hotter != null && chain[i].colder != null
    {
      var l := Links();
      assert l[i].colder == l[i + 1] && l[i + 2].hotter == l[i + 1];
    }

    /** Entries whose contents do not change look the same wherever the chain puts them. */
    twostate lemma ItemsWithout(i: nat)
      requires i < |old(chain)| && chain == Without(old(chain), i) && Distinct(old(Items()))
      requires forall e | e in old(chain) :: e.AsItem() == old(e.AsItem())
      ensures Items() == Without(old(Items()), i)
      ensures Items() == Keep(old(Items()), OtherThan(old(chain)[i].key))
    {
      var c := old(chain);
      assert forall j | 0 <= j < |chain| :: chain[j] == c[if j < i then j else j + 1];
      assert Items() == Without(old(Items()), i);
      KeepIsWithout(old(Items()), i);
    }

    /** `cache_remove_entry`: out of the list, out of the table, one fewer. */
    method RemoveEntry(entry: CacheEntry, ghost i: nat)
      requires Valid() && i < |chain| && chain[i] == entry
      modifies this, Nodes()`hotter, Nodes()`colder
      ensures Valid() && chain == Without(old(chain), i) && table == old(table) - {entry.key}
      ensures Items() == Without(old(Items()), i) == Keep(old(Items()), OtherThan(entry.key))
      ensures forall e | e in Nodes() :: e in old(Nodes())
    {
      hide Linked, Indexes, NoRepeats, Items, Distinct, Keep;
      ItemsDistinct();
      IndexesWithout(table, chain, i);
      LruRemove(entry, i);
      table := table - {entry.key};
      if size > 0 {
        size := size - 1;
      }
      ItemsWithout(i);
    }

    /** `is_entry_expired`: a loop over the records. */
    method IsEntryExpired(entry: CacheEntry, now: int) returns (expired: bool)
      ensures expired == Expired(entry.AsItem(), now)
    {
      var rrs := entry.value.rrs;
      for i := 0 to |rrs|
        invariant forall j | 0 <= j < i :: !RecordExpired(rrs[j], now - entry.createdAt)
      {
        if rrs[i].ttl == FOREVER {
          continue;
        }
        if ToSeconds(now - entry.createdAt) >= rrs[i].ttl {
          return true;
        }
      }
      return false;
    }

    /** The table finds a key exactly when the sequence holds it, at the position of its entry. */
    lemma Lookups(k: Key)
      requires Valid()
      ensures Distinct(Items()) && (k in table <==> HasKey(Items(), k))
      ensures k in table ==>
                && table[k] in chain && table[k].key == k
                && Entry(Items(), k) == table[k].AsItem() == Items()[Index(chain, table[k])]
    {
      ItemsDistinct();
      var s := Items();
      if k in table {
        EntryAt(s, Index(chain, table[k]));
      }
    }

    /** The node before the tail sentinel is the coldest entry, or the head sentinel. */
    lemma BeforeTail()
      requires Linked()
      ensures tail.hotter == if chain == [] then head else chain[|chain| - 1]
      ensures chain != [] ==> tail.hotter != head
    {
      var l := Links();
      assert l[|chain|].colder == l[|chain| + 1] && l[0] == head;
      assert chain != [] ==> l[|chain|] == chain[|chain| - 1];
    }

    /** One entry renewed and moved up front, the others as they were. */
    twostate lemma ItemsMoved(i: nat)
      requires i < |old(chain)| && chain == [old(chain)[i]] + Without(old(chain), i)
      requires NoRepeats(old(chain)) && Distinct(old(Items()))
      requires forall e | e in old(chain) && e != old(chain)[i] :: e.AsItem() == old(e.AsItem())
      ensures Items() == [old(chain)[i].AsItem()] + Keep(old(Items()), OtherThan(old(chain)[i].key))
    {
      hide Keep, Distinct, Without;
      var c, was := old(chain), old(Items());
      KeepIsWithout(was, i);
      WithoutAt(c, i);
      forall j | 1 <= j < |chain|
        ensures Items()[j] == was[if j - 1 < i then j - 1 else j]
      {
        var k := if j - 1 < i then j - 1 else j;
        assert chain[j] == c[k] && k != i;
      }
      MovedUp(was, Items(), i);
    }

    /** `lru_touch` of an entry whose contents may have been renewed. */
    method Touch(entry: CacheEntry, ghost i: nat)
      requires Valid() && i < |chain| && chain[i] == entry
      modifies this`chain, Nodes()`hotter, Nodes()`colder
      ensures Valid() && chain == [entry] + Without(old(chain), i)
      ensures Items() == [entry.AsItem()] + Keep(old(Items()), OtherThan(entry.key))
      ensures forall e | e in Nodes() :: e in old(Nodes())
    {
      hide Indexes, Linked, NoRepeats, Distinct, Keep, Items;
      ItemsDistinct();
      IndexesMoved(table, chain, i);
      LruTouch(entry, i);
      ItemsMoved(i);
    }

    /** Renewing the contents of one entry leaves the others alone. */
    twostate lemma OthersStay(i: nat)
      requires i < |chain| && old(chain) == chain && Distinct(old(Items()))
      requires forall e | e in chain && e != chain[i] :: e.AsItem() == old(e.AsItem())
      ensures Distinct(Items())
      ensures Keep(Items(), OtherThan(chain[i].key)) == Keep(old(Items()), OtherThan(chain[i].key))
    {
      hide Keep, Distinct;
      var s, was := Items(), old(Items());
      forall j | 0 <= j < |s| && j != i
        ensures s[j] == was[j]
      {
        KeysDiffer(was, i, j);
        assert chain[j] != chain[i];
      }
      OneRenewed(was, s, i);
    }

    /** The branch of `dns_cache_put` for a key already there. */
    method Renew(entry: CacheEntry, ghost i: nat, value: CacheValue, now: int)
      requires Valid() && i < |chain| && chain[i] == entry
      modifies this`chain, Nodes()`hotter, Nodes()`colder, entry`value, entry`createdAt
      ensures Valid()
      ensures Items() == [Item(entry.key, value, now)] + Keep(old(Items()), OtherThan(entry.key))
      ensures forall e | e in Nodes() :: e in old(Nodes())
    {
      hide Indexes, Linked, NoRepeats, Distinct, Keep, Items;
      ItemsDistinct();
      entry.value := value;
      entry.createdAt := now;
      OthersStay(i);
      Touch(entry, i);
    }

    twostate lemma ItemsAdded()
      requires chain != [] && chain[1..] == old(chain)
      requires forall e | e in old(chain) :: e.AsItem() == old(e.AsItem())
      ensures Items() == [chain[0].AsItem()] + old(Items())
    {
      assert forall i | 1 <= i < |chain| :: chain[i] == old(chain)[i - 1];
    }

    /** The end of the other branch: a new entry under a key not there, within the capacity. */
    method AddEntry(key: Key, value: CacheValue, now: int)
      requires Valid() && key !in table && size < capacity
      modifies this, Nodes()`hotter, Nodes()`colder
      ensures Valid() && Items() == [Item(key, value, now)] + old(Items())
      ensures OnlyGrew()
    {
      hide Indexes, Linked, NoRepeats, Items;
      ghost var none := |chain|;
      var entry := new CacheEntry(key, value, now);
      IndexesFront(table, chain, entry);
      table := table[key := entry];
      LruTouch(entry, none);
      size := size + 1;
      ItemsAdded();
    }

    /** `dns_cache_put`. */
    method Put(qname: seq<byte>, qtype: uint16, qclass: uint16, value: CacheValue, now: int)
      requires Valid()
      modifies this, Nodes()
      ensures Valid() && Items() == CacheSpec.Put(old(Items()), capacity, Print(qclass, qtype, qname), value, now)
      ensures OnlyGrew()
    {
      hide Indexes, Linked, NoRepeats, Keep, Distinct, Items;
      var key := Print(qclass, qtype, qname);
      Lookups(key);
      if key in table {
        Renew(table[key], Index(chain, table[key]), value, now);
      } else {
        if size >= capacity {
          BeforeTail();
          var victim := tail.hotter;
          if victim != head {
            RemoveEntry(victim, |chain| - 1);
          }
        }
        AddEntry(key, value, now);
      }
    }

    /** `dns_cache_get`. */
    method Get(qname: seq<byte>, qtype: uint16, qclass: uint16, now: int) returns (result: Option<CacheValue>)
      requires Valid()
      modifies this, Nodes()
      ensures Valid() && Items() == CacheSpec.Get(old(Items()), Print(qclass, qtype, qname), now)
      ensures result == Lookup(old(Items()), Print(qclass, qtype, qname), now)
      ensures forall e | e in Nodes() :: e in old(Nodes())
    {
      hide Indexes, Linked, NoRepeats, Keep, Distinct, Items;
      var key := Print(qclass, qtype, qname);
      Lookups(key);
      if key !in table {
        return None;
      }
      var entry := table[key];
      ghost var i := Index(chain, entry);
      var expired := IsEntryExpired(entry, now);
      assert Valid();
      if expired {
        RemoveEntry(entry, i);
        return None;
      }
      result := Some(entry.value);
      Touch(entry, i);
    }

    /** Where a node's `colder` leads: the next entry, or the tail sentinel. */
    lemma After(i: nat)
      requires Linked() && i <= |chain|
      ensures (if i == 0 then head else chain[i - 1]).colder == if i < |chain| then chain[i] else tail
      ensures i < |chain| ==> chain[i] != tail
    {
      var l := Links();
      assert l[i].colder == l[i + 1] && l[|chain| + 1] == tail;
      assert i < |chain| ==> l[i + 1] == chain[i];
    }

    /** `dns_cache_prune_locked`: the next node is saved before the current one may go. */
    method Prune(now: int)
      requires Valid()
      modifies this, Nodes()
      ensures Valid() && Items() == CacheSpec.Prune(old(Items()), now)
      ensures forall e | e in Nodes() :: e in old(Nodes())
    {
      hide Indexes, Linked, NoRepeats, Keep, Distinct, Pruned, Expired, Items;
      ghost var was, kept := Items(), 0;
      PruneStarts(was, now);
      After(0);
      var entry := head.colder;
      while entry != tail
        invariant Valid() && kept <= |chain| && entry == if kept < |chain| then chain[kept] else tail
        invariant forall e | e in Nodes() :: e in old(Nodes())
        invariant Pruned(was, Items(), kept, now)
        decreases |chain| - kept
      {
        After(kept + 1);
        ItemAt(kept);
        var next := entry.colder;
        PruneGoesOn(was, Items(), kept, now);
        ghost var here := Items();
        var expired := IsEntryExpired(entry, now);
        assert Valid();
        assert Items() == here;
        if expired {
          RemoveEntry(entry, kept);
        } else {
          kept := kept + 1;
        }
        entry := next;
      }
      After(kept);
      PruneEnds(was, Items(), now);
    }
  }
}
