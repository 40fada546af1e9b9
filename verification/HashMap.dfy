/** The chained hash map of src/infra/stl.c, for any hash function and a comparator that is zero
    exactly on equal keys. Bucket lists are sequences; the whole acts as a finite map. */
module ChainedHashMap {
  import opened Common

  type int32 = x: int | -0x8000_0000 <= x < 0x8000_0000

  datatype Entry<K, V> = Entry(key: K, data: V)

  const INIT_BUCKETS: nat := 16

  /** `hash_map_bucket_index`: the hash is made non-negative, its least value becoming zero. */
  function BucketIndex(hash: int32, count: nat): (i: nat)
    requires count > 0
    ensures i < count
  {
    var h: int := if hash == -0x8000_0000 then 0 else if hash < 0 then -hash else hash;
    h % count
  }

  /** The remainder of the hash's magnitude; the least hash, which has none in 32 bits, counts as zero. */
  lemma BucketIndexExact(hash: int32, count: nat, q: nat, i: nat)
    requires count > 0 && i < count
    ensures hash >= 0 && hash == q * count + i ==> BucketIndex(hash, count) == i
    ensures -0x8000_0000 < hash < 0 && -hash == q * count + i ==> BucketIndex(hash, count) == i
    ensures BucketIndex(-0x8000_0000, count) == 0
  {
    RemainderIs(q, count, i);
  }

  lemma RemainderIs(q: nat, count: nat, i: nat)
    requires count > 0 && i < count
    ensures (q * count + i) % count == i && 0 % count == 0
  {
    var x := q * count + i;
    var gap := x / count - q;
    assert gap * count == i - x % count;
    Multiple(gap, count);
  }

  lemma Multiple(k: int, m: int)
    requires m > 0
    ensures k >= 1 ==> k * m >= m
    ensures k <= -1 ==> k * m <= -m
  {
  }

  /** One entry per key, each in the bucket its hash selects. */
  ghost predicate WellPlaced<K(!new), V(!new)>(hash: K -> int32, buckets: seq<seq<Entry<K, V>>>) {
    && |buckets| > 0
    && (forall i, j | 0 <= i < |buckets| && 0 <= j < |buckets[i]| ::
          BucketIndex(hash(buckets[i][j].key), |buckets|) == i)
    && (forall i | 0 <= i < |buckets| :: DistinctKeys(buckets[i]))
  }

  ghost predicate DistinctKeys<K, V>(bucket: seq<Entry<K, V>>) {
    forall j, k | 0 <= j < k < |bucket| :: bucket[j].key != bucket[k].key
  }

  ghost predicate Holds<K(!new), V(!new)>(hash: K -> int32, buckets: seq<seq<Entry<K, V>>>, e: Entry<K, V>)
    requires |buckets| > 0
  {
    e in buckets[BucketIndex(hash(e.key), |buckets|)]
  }

  /** The chains hold exactly the pairs of the map. */
  ghost predicate Represents<K(!new), V(!new)>(hash: K -> int32, bs: seq<seq<Entry<K, V>>>, m: map<K, V>) {
    |bs| > 0 && forall e :: Holds(hash, bs, e) <==> e.key in m && m[e.key] == e.data
  }

  lemma HeldAt<K(!new), V(!new)>(hash: K -> int32, bs: seq<seq<Entry<K, V>>>, i: nat, node: nat)
    requires WellPlaced(hash, bs) && i < |bs| && node < |bs[i]|
    ensures Holds(hash, bs, bs[i][node])
  {
  }

  lemma NotHeld<K(!new), V(!new)>(hash: K -> int32, bs: seq<seq<Entry<K, V>>>, m: map<K, V>, key: K)
    requires Represents(hash, bs, m)
    ensures key in m ==> exists e :: e in bs[BucketIndex(hash(key), |bs|)] && e.key == key
    ensures (forall e | e in bs[BucketIndex(hash(key), |bs|)] :: e.key != key) ==> forall v :: !Holds(hash, bs, Entry(key, v))
  {
    if key in m {
      assert Holds(hash, bs, Entry(key, m[key]));
    }
  }

  lemma Added<K(!new), V(!new)>(hash: K -> int32, bs: seq<seq<Entry<K, V>>>, e: Entry<K, V>)
    requires WellPlaced(hash, bs) && forall v :: !Holds(hash, bs, Entry(e.key, v))
    ensures var i := BucketIndex(hash(e.key), |bs|);
            var bs' := bs[i := bs[i] + [e]];
            WellPlaced(hash, bs') && forall x :: Holds(hash, bs', x) <==> Holds(hash, bs, x) || x == e
  {
    var i := BucketIndex(hash(e.key), |bs|);
    forall j | 0 <= j < |bs[i]|
      ensures bs[i][j].key != e.key
    {
      assert bs[i][j].key == e.key ==> Holds(hash, bs, Entry(e.key, bs[i][j].data));
    }
  }

  lemma Replaced<K(!new), V(!new)>(hash: K -> int32, bs: seq<seq<Entry<K, V>>>, i: nat, node: nat, data: V)
    requires WellPlaced(hash, bs) && i < |bs| && node < |bs[i]|
    ensures var key := bs[i][node].key;
            var bs' := bs[i := bs[i][node := Entry(key, data)]];
            WellPlaced(hash, bs') &&
            forall x :: Holds(hash, bs', x) <==> if x.key == key then x.data == data else Holds(hash, bs, x)
  {
    var key := bs[i][node].key;
    var bucket' := bs[i][node := Entry(key, data)];
    var bs' := bs[i := bucket'];
    forall x
      ensures Holds(hash, bs', x) <==> if x.key == key then x.data == data else Holds(hash, bs, x)
    {
      assert bucket'[node] == Entry(key, data);
      if BucketIndex(hash(x.key), |bs|) == i && x in bs[i] && x.key != key {
        var j :| 0 <= j < |bs[i]| && bs[i][j] == x;
        assert bucket'[j] == x;
      }
    }
  }

  lemma Removed<K(!new), V(!new)>(hash: K -> int32, bs: seq<seq<Entry<K, V>>>, i: nat, node: nat)
    requires WellPlaced(hash, bs) && i < |bs| && node < |bs[i]|
    ensures var bs' := bs[i := bs[i][..node] + bs[i][node + 1..]];
            WellPlaced(hash, bs') &&
            forall x :: Holds(hash, bs', x) <==> Holds(hash, bs, x) && x.key != bs[i][node].key
  {
    var bucket' := bs[i][..node] + bs[i][node + 1..];
    var bs' := bs[i := bucket'];
    forall x
      ensures Holds(hash, bs', x) <==> Holds(hash, bs, x) && x.key != bs[i][node].key
    {
      if BucketIndex(hash(x.key), |bs|) == i && x in bs[i] && x.key != bs[i][node].key {
        var j :| 0 <= j < |bs[i]| && bs[i][j] == x;
        assert bucket'[if j < node then j else j - 1] == x;
      }
    }
  }

  /** The entries of the first `i` buckets and the first `j` of bucket `i`. */
  ghost predicate Moved<K(!new), V(!new)>(hash: K -> int32, bs: seq<seq<Entry<K, V>>>, e: Entry<K, V>, i: nat, j: nat)
    requires |bs| > 0
  {
    var b := BucketIndex(hash(e.key), |bs|);
    if b < i then e in bs[b]
    else b == i && j <= |bs[i]| && e in bs[i][..j]
  }

  lemma NothingMoved<K(!new), V(!new)>(hash: K -> int32, bs: seq<seq<Entry<K, V>>>, empty: seq<seq<Entry<K, V>>>)
    requires |bs| > 0 && |empty| > 0 && forall i | 0 <= i < |empty| :: empty[i] == []
    ensures WellPlaced(hash, empty)
    ensures forall e :: Holds(hash, empty, e) <==> Moved(hash, bs, e, 0, 0)
  {
  }

  lemma EverythingMoved<K(!new), V(!new)>(hash: K -> int32, bs: seq<seq<Entry<K, V>>>)
    requires |bs| > 0
    ensures forall e :: Moved(hash, bs, e, |bs|, 0) <==> Holds(hash, bs, e)
  {
  }

  lemma MovedStep<K(!new), V(!new)>(hash: K -> int32, bs: seq<seq<Entry<K, V>>>, i: nat, j: nat)
    requires WellPlaced(hash, bs) && i < |bs| && j < |bs[i]|
    ensures forall v :: !Moved(hash, bs, Entry(bs[i][j].key, v), i, j)
    ensures forall e :: Moved(hash, bs, e, i, j + 1) <==> Moved(hash, bs, e, i, j) || e == bs[i][j]
  {
    assert bs[i][..j + 1] == bs[i][..j] + [bs[i][j]];
  }

  lemma MovedBucket<K(!new), V(!new)>(hash: K -> int32, bs: seq<seq<Entry<K, V>>>, i: nat)
    requires |bs| > 0 && i < |bs|
    ensures forall e :: Moved(hash, bs, e, i + 1, 0) <==> Moved(hash, bs, e, i, |bs[i]|)
  {
    assert bs[i][..|bs[i]|] == bs[i];
  }

  class HashMap<K(==, !new), V(!new)> {
    const hash: K -> int32
    var buckets: seq<seq<Entry<K, V>>>
    var size: nat
    ghost var contents: map<K, V>

    ghost predicate Valid()
      reads this
    {
      && WellPlaced(hash, buckets)
      && Represents(hash, buckets, contents)
      && size == |contents|
      && |buckets| >= INIT_BUCKETS && 4 * size <= 3 * |buckets|
    }

    constructor (hash: K -> int32)
      ensures Valid() && contents == map[] && this.hash == hash
    {
      this.hash := hash;
      buckets := seq(INIT_BUCKETS, i => []);
      size := 0;
      contents := map[];
    }

    /** `hash_map_find_node`: the position of the key in its bucket, or the bucket's length. */
    method FindNode(bucket: seq<Entry<K, V>>, key: K) returns (node: nat)
      ensures node <= |bucket|
      ensures node < |bucket| ==> bucket[node].key == key
      ensures node == |bucket| ==> forall e | e in bucket :: e.key != key
    {
      node := 0;
      while node < |bucket| && bucket[node].key != key
        invariant node <= |bucket| && forall j | 0 <= j < node :: bucket[j].key != key
      {
        node := node + 1;
      }
    }

    /** `hash_map_put`: `1` when the key was present. */
    method Put(key: K, data: V) returns (present: bool)
      requires Valid()
      modifies this`buckets, this`size, this`contents
      ensures Valid() && contents == old(contents)[key := data]
      ensures present <==> key in old(contents)
      ensures |buckets| == if !present && 4 * (old(size) + 1) > 3 * |old(buckets)| then 2 * |old(buckets)| else |old(buckets)|
    {
      hide WellPlaced, Holds;
      var count := |buckets|;
      var i := BucketIndex(hash(key), count);
      var node := FindNode(buckets[i], key);
      ghost var before := buckets;
      if node < |buckets[i]| {
        HeldAt(hash, before, i, node);
        buckets := buckets[i := buckets[i][node := Entry(key, data)]];
        contents := contents[key := data];
        Replaced(hash, before, i, node, data);
        return true;
      }
      NotHeld(hash, before, contents, key);
      buckets := buckets[i := buckets[i] + [Entry(key, data)]];
      size := size + 1;
      contents := contents[key := data];
      Added(hash, before, Entry(key, data));
      if 4 * size > 3 * count {
        Resize(count * 2);
      }
      return false;
    }

    method Get(key: K) returns (result: Option<V>)
      requires Valid()
      ensures result == if key in contents then Some(contents[key]) else None
    {
      var i := BucketIndex(hash(key), |buckets|);
      var node := FindNode(buckets[i], key);
      if node == |buckets[i]| {
        NotHeld(hash, buckets, contents, key);
        return None;
      }
      HeldAt(hash, buckets, i, node);
      return Some(buckets[i][node].data);
    }

    method Remove(key: K)
      requires Valid()
      modifies this`buckets, this`size, this`contents
      ensures Valid() && contents == old(contents) - {key}
    {
      var i := BucketIndex(hash(key), |buckets|);
      var node := FindNode(buckets[i], key);
      ghost var before := buckets;
      if node == |buckets[i]| {
        NotHeld(hash, before, contents, key);
        assert contents - {key} == contents;
        return;
      }
      HeldAt(hash, before, i, node);
      buckets := buckets[i := buckets[i][..node] + buckets[i][node + 1..]];
      assert contents == (contents - {key})[key := contents[key]];
      contents := contents - {key};
      size := size - 1;
      Removed(hash, before, i, node);
    }

    /** `hash_map_resize`: every entry moves to the bucket it has among the new ones. */
    method Resize(count: nat)
      requires WellPlaced(hash, buckets) && Represents(hash, buckets, contents) && count > 0
      modifies this`buckets
      ensures |buckets| == count && WellPlaced(hash, buckets) && Represents(hash, buckets, contents)
    {
      hide WellPlaced, Holds, Moved;
      var chains := buckets;
      var moved: seq<seq<Entry<K, V>>> := seq(count, i => []);
      NothingMoved(hash, chains, moved);
      var i := 0;
      while i < |chains|
        invariant i <= |chains| && |moved| == count && WellPlaced(hash, moved)
        invariant forall e :: Holds(hash, moved, e) <==> Moved(hash, chains, e, i, 0)
      {
        var j := 0;
        while j < |chains[i]|
          invariant j <= |chains[i]| && |moved| == count && WellPlaced(hash, moved)
          invariant forall e :: Holds(hash, moved, e) <==> Moved(hash, chains, e, i, j)
        {
          var entry := chains[i][j];
          var at := BucketIndex(hash(entry.key), count);
          MovedStep(hash, chains, i, j);
          ghost var before := moved;
          moved := moved[at := moved[at] + [entry]];
          Added(hash, before, entry);
          j := j + 1;
        }
        MovedBucket(hash, chains, i);
        i := i + 1;
      }
      EverythingMoved(hash, chains);
      buckets := moved;
    }
  }
}
