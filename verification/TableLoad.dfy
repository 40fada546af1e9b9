/** The static table of src/dns/dns_cache.c: parsed records are grouped by type and name under printed
    keys, and each group goes into the cache under the type and name read back from its key. */
module TableLoad {
  import opened Common
  import opened Names
  import opened Messages
  import opened CacheSpec
  import opened CacheTheorems
  import opened CacheKey
  import opened Cache
  import opened Blocking

  const QCLASS_IN: uint16 := 1

  /** What `snprintf` leaves of a text in the 512-byte key buffer, its final zero aside. */
  const KEY_ROOM: nat := 511

  function Truncated(text: seq<byte>): seq<byte> {
    if |text| > KEY_ROOM then text[..KEY_ROOM] else text
  }

  function GroupKey(r: Record): seq<byte> {
    Truncated(Decimal(r.rtype) + [BAR] + r.name)
  }

  // ---------- grouping ----------

  function Those(records: seq<Record>, p: Record -> bool): (s: seq<Record>)
    ensures |s| <= |records| && forall r :: r in s <==> r in records && p(r)
  {
    if records == [] then []
    else
      var n := |records| - 1;
      Those(records[..n], p) + if p(records[n]) then [records[n]] else []
  }

  function Under(key: seq<byte>): Record -> bool {
    (r: Record) => GroupKey(r) == key
  }

  /** The group keys in the order of their first records. */
  function Keys(records: seq<Record>): (keys: seq<seq<byte>>) {
    if records == [] then []
    else
      var n := |records| - 1;
      var before, k := Keys(records[..n]), GroupKey(records[n]);
      if k in before then before else before + [k]
  }

  /** The keys are those of the records, each once. */
  lemma {:induction false} KeysExact(records: seq<Record>)
    ensures forall r | r in records :: GroupKey(r) in Keys(records)
    ensures forall k | k in Keys(records) :: Those(records, Under(k)) != []
    ensures NoRepeats(Keys(records))
  {
    hide GroupKey, Those;
    if records != [] {
      var n := |records| - 1;
      var before, last := records[..n], records[n];
      KeysExact(before);
      assert records == before + [last];
      forall k | k in Keys(records)
        ensures Those(records, Under(k)) != []
      {
        LastThose(records, k);
      }
    }
  }

  lemma LastThose(records: seq<Record>, k: seq<byte>)
    requires records != []
    ensures var n := |records| - 1;
            Those(records, Under(k)) == Those(records[..n], Under(k)) + if GroupKey(records[n]) == k then [records[n]] else []
  {
  }

  ghost function PutsOf(records: seq<Record>, keys: seq<seq<byte>>, now: int): seq<Op> {
    if keys == [] then []
    else
      var n := |keys| - 1;
      PutsOf(records, keys[..n], now) + PutFor(keys[n], Those(records, Under(keys[n])), now)
  }

  /** One group into the cache; a key without a bar would be passed over. */
  ghost function PutFor(key: seq<byte>, group: seq<Record>, now: int): seq<Op> {
    var bar := FindBar(key);
    if bar == |key| then []
    else [PutOp(Print(QCLASS_IN, Atoi(key) % 0x1_0000, key[bar + 1..]), CacheValue(|group| % 0x1_0000, 0, 0, group), now)]
  }

  ghost function Puts(records: seq<Record>, now: int): seq<Op> {
    PutsOf(records, Keys(records), now)
  }

  lemma ThoseNext(records: seq<Record>, i: nat, p: Record -> bool)
    requires i < |records|
    ensures Those(records[..i + 1], p) == Those(records[..i], p) + if p(records[i]) then [records[i]] else []
  {
    assert records[..i + 1][..i] == records[..i];
  }

  lemma KeysNext(records: seq<Record>, i: nat)
    requires i < |records|
    ensures var before, k := Keys(records[..i]), GroupKey(records[i]);
            Keys(records[..i + 1]) == if k in before then before else before + [k]
  {
    assert records[..i + 1][..i] == records[..i];
  }

  lemma PutsNext(c: nat, s: seq<Item>, records: seq<Record>, keys: seq<seq<byte>>, i: nat, now: int)
    requires c >= 1 && i < |keys|
    ensures var before, put := PutsOf(records, keys[..i], now), PutFor(keys[i], Those(records, Under(keys[i])), now);
            Run(c, s, PutsOf(records, keys[..i + 1], now)) ==
            if put == [] then Run(c, s, before) else Step(c, Run(c, s, before), put[0])
  {
    hide Run, Step, Those, FindBar, Atoi, CacheKey.Print;
    var before, put := PutsOf(records, keys[..i], now), PutFor(keys[i], Those(records, Under(keys[i])), now);
    assert keys[..i + 1][..i] == keys[..i];
    if put == [] {
      assert before + put == before;
    } else {
      RunOne(c, s, before, put[0]);
    }
  }

  /** The first half of `load_ip_table`, on records already parsed. */
  method GroupRecords(records: seq<Record>) returns (keys: seq<seq<byte>>, groups: map<seq<byte>, seq<Record>>)
    ensures keys == Keys(records)
    ensures forall k :: k in groups <==> k in keys
    ensures forall k | k in groups :: groups[k] == Those(records, Under(k))
  {
    hide GroupKey, Those, Keys;
    keys, groups := [], map[];
    NoRecords();
    for i := 0 to |records|
      invariant keys == Keys(records[..i])
      invariant forall k :: k in groups <==> k in keys
      invariant forall k :: k in groups ==> groups[k] == Those(records[..i], Under(k))
      invariant forall k :: k !in groups ==> Those(records[..i], Under(k)) == []
    {
      var key := GroupKey(records[i]);
      KeysNext(records, i);
      forall k
        ensures Those(records[..i + 1], Under(k)) == Those(records[..i], Under(k)) + if key == k then [records[i]] else []
      {
        ThoseNext(records, i, Under(k));
      }
      if key !in groups {
        groups := groups[key := []];
        keys := keys + [key];
      }
      groups := groups[key := groups[key] + [records[i]]];
    }
    assert records[..|records|] == records;
  }

  lemma NoRecords()
    ensures Keys([]) == [] && forall p: Record -> bool :: Those([], p) == []
  {
  }

  lemma NoPuts(records: seq<Record>, now: int)
    ensures PutsOf(records, [], now) == []
  {
  }

  /** `load_ip_table`: what it does to the cache. */
  method LoadTable(cache: DnsCache, records: seq<Record>, now: int)
    requires cache.Valid()
    modifies cache, cache.Nodes()
    ensures cache.Valid() && cache.OnlyGrew()
    ensures cache.Items() == Run(cache.capacity, old(cache.Items()), Puts(records, now))
  {
    hide Run, Keys, Those, PutsOf, CacheSpec.Put, CacheKey.Print, DnsCache.Items, DnsCache.Linked, DnsCache.Agrees;
    NoPuts(records, now);
    ghost var s, c := cache.Items(), cache.capacity;
    var keys, groups := GroupRecords(records);
    RunNothing(c, s);
    for i := 0 to |keys|
      invariant cache.Valid() && cache.OnlyGrew()
      invariant cache.Items() == Run(c, s, PutsOf(records, keys[..i], now))
    {
      PutsNext(c, s, records, keys, i, now);
      var key := keys[i];
      var group := groups[key];
      var separator := FindBar(key);
      if separator == |key| {
        continue;
      }
      cache.Put(key[separator + 1..], Atoi(key) % 0x1_0000, QCLASS_IN, CacheValue(|group| % 0x1_0000, 0, 0, group), now);
    }
    assert keys[..|keys|] == keys;
  }

  /** Group keys come in the order of their first records. */
  lemma {:induction false} KeysByFirstRecord(records: seq<Record>) returns (at: seq<nat>)
    ensures |at| == |Keys(records)|
    ensures forall j | 0 <= j < |at| :: at[j] < |records| && GroupKey(records[at[j]]) == Keys(records)[j]
    ensures forall j, i: nat | 0 <= j < |at| && i < at[j] :: GroupKey(records[i]) != Keys(records)[j]
    ensures forall i, j | 0 <= i < j < |at| :: at[i] < at[j]
  {
    hide GroupKey, Those, Keys;
    if records == [] {
      at := [];
      NoRecords();
    } else {
      var n := |records| - 1;
      var before := records[..n];
      at := KeysByFirstRecord(before);
      LastKeyOf(records);
      if GroupKey(records[n]) !in Keys(before) {
        NotBefore(records, n);
        at := at + [n];
      }
    }
  }

  lemma LastKeyOf(records: seq<Record>)
    requires records != []
    ensures var n := |records| - 1;
            var before, k := Keys(records[..n]), GroupKey(records[n]);
            Keys(records) == if k in before then before else before + [k]
  {
  }

  lemma NotBefore(records: seq<Record>, n: nat)
    requires n < |records| && GroupKey(records[n]) !in Keys(records[..n])
    ensures forall i: nat | i < n :: GroupKey(records[i]) != GroupKey(records[n])
  {
    KeysExact(records[..n]);
    assert forall i | 0 <= i < n :: records[..n][i] == records[i] && records[..n][i] in records[..n];
  }

  /** A group is a selection in file order: the records at increasing positions, and all that fit. */
  lemma {:induction false} ThoseInOrder(records: seq<Record>, p: Record -> bool) returns (at: seq<nat>)
    ensures |at| == |Those(records, p)|
    ensures forall j | 0 <= j < |at| :: at[j] < |records| && Those(records, p)[j] == records[at[j]] && p(records[at[j]])
    ensures forall i, j | 0 <= i < j < |at| :: at[i] < at[j]
    ensures forall i: nat | i < |records| && p(records[i]) :: i in at
  {
    hide Those;
    if records == [] {
      at := [];
      NothingThere(p);
    } else {
      var n := |records| - 1;
      var before := ThoseInOrder(records[..n], p);
      at := before + if p(records[n]) then [n] else [];
      LastOfThose(records, p);
      forall i: nat | i < |records| && p(records[i])
        ensures i in at
      {
        assert i < n ==> records[..n][i] == records[i] && i in before;
        assert i == n ==> at[|before|] == n;
      }
    }
  }

  lemma NothingThere(p: Record -> bool)
    ensures Those([], p) == []
  {
  }

  lemma LastOfThose(records: seq<Record>, p: Record -> bool)
    requires records != []
    ensures var n := |records| - 1;
            Those(records, p) == Those(records[..n], p) + if p(records[n]) then [records[n]] else []
  {
  }

  // ---------- reading the key back ----------

  ghost function Pow10(d: nat): nat {
    if d == 0 then 1 else 10 * Pow10(d - 1)
  }

  lemma {:induction false} DecimalShort(n: nat, d: nat)
    requires d >= 1 && n < Pow10(d)
    ensures |Decimal(n)| <= d
  {
    if n >= 10 {
      assert d > 1;
      DecimalShort(n / 10, d - 1);
    }
  }

  /** What fits of a name behind the printed type. */
  ghost function Cut(rtype: uint16, name: seq<byte>): seq<byte> {
    var room := KEY_ROOM - |Decimal(rtype)| - 1;
    if room < |name| && 0 <= room then name[..room] else name
  }

  ghost predicate Fits(r: Record) {
    |Decimal(r.rtype)| + 1 + |r.name| <= KEY_ROOM
  }

  /** The group key determines and is determined by the type and what fits of the name; both are read
      back from it. */
  lemma GroupKeyReads(r: Record)
    ensures var key := GroupKey(r);
            key == Decimal(r.rtype) + [BAR] + Cut(r.rtype, r.name) &&
            FindBar(key) < |key| && Atoi(key) == r.rtype && key[FindBar(key) + 1..] == Cut(r.rtype, r.name)
    ensures Cut(r.rtype, r.name) == r.name <==> Fits(r)
  {
    hide Decimal, Atoi, FindBar;
    assert Pow10(5) == 100000;
    DecimalShort(r.rtype, 5);
    var digits := Decimal(r.rtype);
    var text := digits + [BAR] + r.name;
    if |text| > KEY_ROOM {
      assert text[..KEY_ROOM] == digits + [BAR] + r.name[..KEY_ROOM - |digits| - 1];
    }
    NumberField(r.rtype, Cut(r.rtype, r.name));
    assert |digits + [BAR]| == |digits| + 1;
  }

  // ---------- none lost, none twice ----------

  ghost function Total(records: seq<Record>, keys: seq<seq<byte>>): nat {
    if keys == [] then 0 else |Those(records, Under(keys[0]))| + Total(records, keys[1..])
  }

  lemma {:induction false} TotalNext(records: seq<Record>, i: nat, keys: seq<seq<byte>>)
    requires i < |records| && NoRepeats(keys)
    ensures Total(records[..i + 1], keys) == Total(records[..i], keys) + if GroupKey(records[i]) in keys then 1 else 0
    decreases |keys|
  {
    if keys != [] {
      ThoseNext(records, i, Under(keys[0]));
      assert NoRepeats(keys[1..]) && keys == [keys[0]] + keys[1..];
      assert keys[0] !in keys[1..];
      TotalNext(records, i, keys[1..]);
    }
  }

  lemma {:induction false} TotalAppend(records: seq<Record>, keys: seq<seq<byte>>, k: seq<byte>)
    ensures Total(records, keys + [k]) == Total(records, keys) + |Those(records, Under(k))|
    decreases |keys|
  {
    if keys == [] {
      assert keys + [k] == [k];
    } else {
      assert (keys + [k])[1..] == keys[1..] + [k];
      TotalAppend(records, keys[1..], k);
    }
  }

  lemma {:induction false} TotalOfNone(keys: seq<seq<byte>>)
    ensures Total([], keys) == 0
    decreases |keys|
  {
    if keys != [] {
      TotalOfNone(keys[1..]);
    }
  }

  lemma MemberHasKey(records: seq<Record>, k: seq<byte>)
    requires Those(records, Under(k)) != []
    ensures k in Keys(records) && exists r :: r in records && GroupKey(r) == k
  {
    KeysExact(records);
    var r := Those(records, Under(k))[0];
    assert Under(k)(r);
  }

  /** The groups hold as many records as there are: every record is in the one group of its key. */
  lemma {:induction false} GroupsPartition(records: seq<Record>, i: nat)
    requires i <= |records|
    ensures Total(records[..i], Keys(records[..i])) == i
  {
    hide Those, GroupKey, Total, Keys, NoRepeats;
    if i == 0 {
      assert records[..0] == [];
      TotalOfNone(Keys([]));
    } else {
      var before, k := Keys(records[..i - 1]), GroupKey(records[i - 1]);
      GroupsPartition(records, i - 1);
      KeysExact(records[..i - 1]);
      KeysExact(records[..i]);
      KeysNext(records, i - 1);
      TotalNext(records, i - 1, Keys(records[..i]));
      if k !in before {
        TotalAppend(records[..i - 1], before, k);
        if Those(records[..i - 1], Under(k)) != [] {
          MemberHasKey(records[..i - 1], k);
        }
      }
    }
  }

  // ---------- what the loaded table answers ----------

  ghost predicate IsGroupKey(k: seq<byte>) {
    exists r :: GroupKey(r) == k
  }

  /** The entry of one group. */
  ghost function GroupItem(records: seq<Record>, k: seq<byte>, now: int): Item
    requires IsGroupKey(k)
  {
    var r :| GroupKey(r) == k;
    var group := Those(records, Under(k));
    Item(Print(QCLASS_IN, r.rtype, Cut(r.rtype, r.name)), CacheValue(|group| % 0x1_0000, 0, 0, group), now)
  }

  lemma GroupItemOf(records: seq<Record>, r: Record, now: int)
    ensures IsGroupKey(GroupKey(r))
    ensures GroupItem(records, GroupKey(r), now).key == Print(QCLASS_IN, r.rtype, Cut(r.rtype, r.name))
    ensures GroupItem(records, GroupKey(r), now).createdAt == now
    ensures PutFor(GroupKey(r), Those(records, Under(GroupKey(r))), now) ==
            [PutOp(GroupItem(records, GroupKey(r), now).key, GroupItem(records, GroupKey(r), now).value, now)]
  {
    hide Those, GroupKey, Cut, FindBar, Atoi, Print;
    GroupKeyReads(r);
    var x :| GroupKey(x) == GroupKey(r) && GroupItem(records, GroupKey(r), now).key == Print(QCLASS_IN, x.rtype, Cut(x.rtype, x.name));
    GroupKeyReads(x);
  }

  /** Different groups have different entries. */
  lemma GroupItemsDiffer(records: seq<Record>, r: Record, x: Record, now: int)
    requires GroupKey(r) != GroupKey(x)
    ensures IsGroupKey(GroupKey(r)) && IsGroupKey(GroupKey(x))
    ensures GroupItem(records, GroupKey(r), now).key != GroupItem(records, GroupKey(x), now).key
  {
    hide Those, GroupKey, Cut, FindBar, Atoi, Print;
    GroupItemOf(records, r, now);
    GroupItemOf(records, x, now);
    GroupKeyReads(r);
    GroupKeyReads(x);
    PrintInjective(QCLASS_IN, r.rtype, Cut(r.rtype, r.name), QCLASS_IN, x.rtype, Cut(x.rtype, x.name));
  }

  ghost predicate HoldsGroups(s: seq<Item>, records: seq<Record>, keys: seq<seq<byte>>, now: int)
    requires forall k | k in keys :: IsGroupKey(k)
  {
    && (forall k | k in keys :: GroupItem(records, k, now) in s)
    && (forall e | e in s :: exists k :: k in keys && e == GroupItem(records, k, now))
  }

  lemma PutInFront(c: nat, s: seq<Item>, item: Item)
    requires |s| < c && forall e | e in s :: e.key != item.key
    ensures Put(s, c, item.key, item.value, item.createdAt) == [item] + s
  {
  }

  lemma HoldsOneMore(s: seq<Item>, records: seq<Record>, keys: seq<seq<byte>>, k: seq<byte>, now: int)
    requires IsGroupKey(k) && forall j | j in keys :: IsGroupKey(j)
    requires HoldsGroups(s, records, keys, now)
    ensures HoldsGroups([GroupItem(records, k, now)] + s, records, keys + [k], now)
  {
    hide IsGroupKey, GroupItem;
    var item := GroupItem(records, k, now);
    forall e | e in [item] + s
      ensures exists j :: j in keys + [k] && e == GroupItem(records, j, now)
    {
      if e == item {
        assert k in keys + [k];
      } else {
        var j :| j in keys && e == GroupItem(records, j, now);
        assert j in keys + [k];
      }
    }
  }

  lemma NotYetHeld(s: seq<Item>, records: seq<Record>, keys: seq<seq<byte>>, k: seq<byte>, now: int)
    requires IsGroupKey(k) && forall j | j in keys :: IsGroupKey(j)
    requires HoldsGroups(s, records, keys, now) && k !in keys
    ensures forall e | e in s :: e.key != GroupItem(records, k, now).key
  {
    hide GroupItem, GroupKey;
    var r :| GroupKey(r) == k;
    forall e | e in s
      ensures e.key != GroupItem(records, k, now).key
    {
      var j :| j in keys && e == GroupItem(records, j, now);
      var x :| GroupKey(x) == j;
      GroupItemsDiffer(records, x, r, now);
    }
  }

  /** Within the capacity, the cache holds exactly the groups put so far. */
  lemma {:induction false} GroupsStay(c: nat, records: seq<Record>, keys: seq<seq<byte>>, now: int)
    requires 1 <= c && |keys| <= c && NoRepeats(keys) && forall k | k in keys :: IsGroupKey(k)
    ensures var s := Run(c, [], PutsOf(records, keys, now));
            |s| == |keys| && HoldsGroups(s, records, keys, now) &&
            (keys != [] ==>
               var n := |keys| - 1;
               s == [GroupItem(records, keys[n], now)] + Run(c, [], PutsOf(records, keys[..n], now)))
    decreases |keys|
  {
    hide GroupKey, Those, PutFor, PutsOf, GroupItem, HoldsGroups, Put, Run, NoRepeats;
    EmptyRun(c, records, now);
    if keys == [] {
      NoGroupsHeld(records, now);
    } else {
      var n := |keys| - 1;
      var before, k := keys[..n], keys[n];
      var s := Run(c, [], PutsOf(records, before, now));
      assert k in keys && forall j | j in before :: j in keys;
      LastKey(keys);
      GroupsStay(c, records, before, now);
      var r :| GroupKey(r) == k;
      GroupItemOf(records, r, now);
      var item := GroupItem(records, k, now);
      LastPut(records, keys, now);
      RunOne(c, [], PutsOf(records, before, now), PutOp(item.key, item.value, now));
      NotYetHeld(s, records, before, k, now);
      PutInFront(c, s, item);
      HoldsOneMore(s, records, before, k, now);
    }
  }

  lemma EmptyRun(c: nat, records: seq<Record>, now: int)
    requires c >= 1
    ensures Run(c, [], PutsOf(records, [], now)) == []
  {
  }

  lemma LastKey(keys: seq<seq<byte>>)
    requires keys != [] && NoRepeats(keys)
    ensures var n := |keys| - 1;
            keys == keys[..n] + [keys[n]] && keys[n] !in keys[..n] && NoRepeats(keys[..n])
  {
  }

  lemma LastPut(records: seq<Record>, keys: seq<seq<byte>>, now: int)
    requires keys != []
    ensures var n := |keys| - 1;
            PutsOf(records, keys, now) ==
            PutsOf(records, keys[..n], now) + PutFor(keys[n], Those(records, Under(keys[n])), now)
  {
  }

  lemma NoGroupsHeld(records: seq<Record>, now: int)
    ensures HoldsGroups([], records, [], now)
  {
  }

  ghost function Named(rtype: uint16, name: seq<byte>): Record -> bool {
    (r: Record) => r.rtype == rtype && Cut(r.rtype, r.name) == name
  }

  lemma {:induction false} ThoseSame(records: seq<Record>, p: Record -> bool, q: Record -> bool)
    requires forall r | r in records :: p(r) == q(r)
    ensures Those(records, p) == Those(records, q)
  {
    if records != [] {
      var n := |records| - 1;
      assert records == records[..n] + [records[n]];
      ThoseSame(records[..n], p, q);
    }
  }

  lemma UnderIsNamed(records: seq<Record>, r: Record)
    ensures Those(records, Under(GroupKey(r))) == Those(records, Named(r.rtype, Cut(r.rtype, r.name)))
  {
    GroupKeyReads(r);
    forall x | x in records
      ensures Under(GroupKey(r))(x) == Named(r.rtype, Cut(r.rtype, r.name))(x)
    {
      GroupKeyReads(x);
    }
    ThoseSame(records, Under(GroupKey(r)), Named(r.rtype, Cut(r.rtype, r.name)));
  }

  lemma UnboundedRecordsStay(e: Item, now: int)
    requires forall r | r in e.value.rrs :: r.ttl == FOREVER
    ensures !Expired(e, now)
  {
  }

  lemma EntryOf(s: seq<Item>, e: Item, now: int)
    requires Distinct(s) && e in s && !Expired(e, now)
    ensures Lookup(s, e.key, now) == Some(e.value)
  {
    EntryUnique(s, e);
  }

  /** After loading into an empty cache with room for all groups, a type and name are answered with
      exactly their records, in file order, for ever; nothing else is answered. What counts as the name
      of a record is what fits of it in the key buffer. */
  lemma TableIsGrouped(c: nat, records: seq<Record>, now: int, rtype: uint16, name: seq<byte>, later: int)
    requires 1 <= c && |Keys(records)| <= c && forall r | r in records :: r.ttl == 4294967295
    ensures var group := Those(records, Named(rtype, name));
            Lookup(Run(c, [], Puts(records, now)), Print(1, rtype, name), later) ==
            if group == [] then None else Some(CacheValue(|group| % 0x1_0000, 0, 0, group))
  {
    hide GroupKey, Those, GroupItem, Cut, Print, Run, Keys, Lookup, Expired;
    var keys, s, k := Keys(records), Run(c, [], Puts(records, now)), Print(1, rtype, name);
    var group := Those(records, Named(rtype, name));
    KeysAreGroupKeys(records);
    GroupsStay(c, records, keys, now);
    RunSane(c, Puts(records, now));
    if group != [] {
      var r := group[0];
      InThose(records, Named(rtype, name), r);
      GroupItemOf(records, r, now);
      UnderIsNamed(records, r);
      var e := GroupItem(records, GroupKey(r), now);
      UnboundedRecordsStay(e, later);
      EntryOf(s, e, later);
    } else {
      forall e | e in s
        ensures e.key != k
      {
        var j :| j in keys && e == GroupItem(records, j, now);
        var r :| r in records && GroupKey(r) == j;
        GroupItemOf(records, r, now);
        InThose(records, Named(rtype, name), r);
        PrintInjective(1, rtype, name, 1, r.rtype, Cut(r.rtype, r.name));
      }
      NotFound(s, k, later);
    }
  }

  lemma NotFound(s: seq<Item>, k: Key, now: int)
    requires forall e | e in s :: e.key != k
    ensures Lookup(s, k, now) == None
  {
  }

  lemma KeysAreGroupKeys(records: seq<Record>)
    ensures NoRepeats(Keys(records))
    ensures forall r | r in records :: GroupKey(r) in Keys(records)
    ensures forall k | k in Keys(records) :: IsGroupKey(k) && exists r :: r in records && GroupKey(r) == k
  {
    KeysExact(records);
    forall k | k in Keys(records)
      ensures exists r :: r in records && GroupKey(r) == k
    {
      MemberHasKey(records, k);
    }
  }

  lemma InThose(records: seq<Record>, p: Record -> bool, r: Record)
    ensures r in Those(records, p) <==> r in records && p(r)
  {
  }

  ghost function FullyNamed(rtype: uint16, name: seq<byte>): Record -> bool {
    (r: Record) => r.rtype == rtype && r.name == name
  }

  /** Every record of the table is answered under its own name exactly when all names fit the key
      buffer, that is, have at most 509 bytes, 508 for AAAA. */
  lemma TableIsExact(c: nat, records: seq<Record>, now: int, later: int)
    requires 1 <= c && |Keys(records)| <= c && forall r | r in records :: r.ttl == 4294967295
    ensures var s := Run(c, [], Puts(records, now));
            (forall r | r in records ::
               var group := Those(records, FullyNamed(r.rtype, r.name));
               Lookup(s, Print(1, r.rtype, r.name), later) ==
               Some(CacheValue(|group| % 0x1_0000, 0, 0, group))) <==>
            forall r | r in records :: Fits(r)
  {
    hide Those, Cut, Print, Run, Keys, Lookup, Fits, GroupKey;
    var s := Run(c, [], Puts(records, now));
    forall r | r in records
      ensures (forall x | x in records :: Fits(x)) ==>
                Those(records, Named(r.rtype, r.name)) == Those(records, FullyNamed(r.rtype, r.name)) != []
      ensures !Fits(r) ==> Those(records, Named(r.rtype, r.name)) == []
    {
      CutNames(records, r);
    }
    forall r | r in records
      ensures var group := Those(records, Named(r.rtype, r.name));
              Lookup(s, Print(1, r.rtype, r.name), later) ==
              if group == [] then None else Some(CacheValue(|group| % 0x1_0000, 0, 0, group))
    {
      TableIsGrouped(c, records, now, r.rtype, r.name, later);
    }
  }

  lemma CutNames(records: seq<Record>, r: Record)
    requires r in records
    ensures (forall x | x in records :: Fits(x)) ==>
              Those(records, Named(r.rtype, r.name)) == Those(records, FullyNamed(r.rtype, r.name)) != []
    ensures !Fits(r) ==> Those(records, Named(r.rtype, r.name)) == []
  {
    hide Those, GroupKey;
    GroupKeyReads(r);
    if forall x | x in records :: Fits(x) {
      forall x | x in records
        ensures Named(r.rtype, r.name)(x) == FullyNamed(r.rtype, r.name)(x)
      {
        GroupKeyReads(x);
      }
      ThoseSame(records, Named(r.rtype, r.name), FullyNamed(r.rtype, r.name));
      InThose(records, FullyNamed(r.rtype, r.name), r);
    }
    if !Fits(r) {
      forall x | x in records
        ensures !Named(r.rtype, r.name)(x)
      {
      }
      NoneOf(records, Named(r.rtype, r.name));
    }
  }

  lemma {:induction false} NoneOf(records: seq<Record>, p: Record -> bool)
    requires forall r | r in records :: !p(r)
    ensures Those(records, p) == []
  {
    if records != [] {
      var n := |records| - 1;
      assert records == records[..n] + [records[n]];
      NoneOf(records[..n], p);
    }
  }

  // ---------- a name that does not fit ----------

  /** Seven labels of 63 octets and one of 60: the wire form of a domain of 508 bytes. */
  const LONG_NAME: seq<byte> := seq(509, i => if i % 64 != 0 then 97 else if i < 448 then 63 else 60)

  const LONG_RECORD := Record(LONG_NAME, 28, 1, 4294967295, seq(16, i => 0))

  /** The line of this domain and the address `::` just fits the reader's buffer, but its key does not
      fit the key buffer: the record is filed under its name less the last byte. */
  lemma LongNameIsCut(c: nat, now: int, later: int)
    requires c >= 1
    ensures LabelChain(LONG_NAME) && !Fits(LONG_RECORD)
    ensures var s := Run(c, [], Puts([LONG_RECORD], now));
            Lookup(s, Print(1, 28, LONG_NAME), later) == None &&
            Lookup(s, Print(1, 28, LONG_NAME[..508]), later) == Some(CacheValue(1, 0, 0, [LONG_RECORD]))
  {
    hide Run, Puts, Print, Lookup, LabelChain, Cut, Named, Decimal, Keys, Those;
    var r := LONG_RECORD;
    LongChain(0);
    assert LONG_NAME[0..] == LONG_NAME;
    LongNamed();
    OnlyRecord(r, Named(28, LONG_NAME));
    OnlyRecord(r, Named(28, LONG_NAME[..508]));
    TableIsGrouped(c, [r], now, 28, LONG_NAME, later);
    TableIsGrouped(c, [r], now, 28, LONG_NAME[..508], later);
  }

  lemma LongNamed()
    ensures !Named(28, LONG_NAME)(LONG_RECORD) && Named(28, LONG_NAME[..508])(LONG_RECORD)
    ensures !Fits(LONG_RECORD)
  {
    assert Decimal(2) == [50] && Decimal(28) == Decimal(2) + [56];
  }

  lemma OnlyRecord(r: Record, p: Record -> bool)
    ensures Those([r], p) == if p(r) then [r] else []
    ensures |Keys([r])| == 1
  {
    assert [r][..0] == [];
  }

  lemma {:induction false} LongChain(k: nat)
    requires k <= 7
    ensures LabelChain(LONG_NAME[64 * k..])
    decreases 7 - k
  {
    var n := LONG_NAME[64 * k..];
    assert n[0] == LONG_NAME[64 * k] == if k < 7 then 63 else 60;
    if k < 7 {
      LongChain(k + 1);
      assert n[64..] == LONG_NAME[64 * (k + 1)..];
    } else {
      assert n[61..] == [];
    }
  }
}
