/** What holds of every history of the cache: inclusion between sizes, transparency of pruning, and
    what least-recently-used eviction promises. */
module CacheTheorems {
  import opened Common
  import opened CacheSpec

  // ---------- subsequences ----------

  ghost predicate Subseq(a: seq<Item>, b: seq<Item>)
    decreases |b|
  {
    a == [] || (b != [] && if a[0] == b[0] then Subseq(a[1..], b[1..]) else Subseq(a, b[1..]))
  }

  lemma {:induction false} SubseqSkip(a: seq<Item>, x: Item, b: seq<Item>)
    requires Subseq(a, b)
    ensures Subseq(a, [x] + b)
    decreases |b|, 1
  {
    assert ([x] + b)[1..] == b;
    if a != [] && a[0] == x {
      SubseqTail(a, b);
    }
  }

  lemma {:induction false} SubseqTail(a: seq<Item>, b: seq<Item>)
    requires Subseq(a, b) && a != []
    ensures Subseq(a[1..], b)
    decreases |b|, 0
  {
    assert b == [b[0]] + b[1..];
    if a[0] == b[0] {
      SubseqSkip(a[1..], b[0], b[1..]);
    } else {
      SubseqTail(a, b[1..]);
      SubseqSkip(a[1..], b[0], b[1..]);
    }
  }

  lemma SubseqBoth(x: Item, a: seq<Item>, b: seq<Item>)
    requires Subseq(a, b)
    ensures Subseq([x] + a, [x] + b)
  {
    assert ([x] + a)[1..] == a && ([x] + b)[1..] == b;
  }

  lemma {:induction false} SubseqMembers(a: seq<Item>, b: seq<Item>)
    requires Subseq(a, b)
    ensures |a| <= |b| && forall e | e in a :: e in b
    decreases |b|
  {
    if a != [] {
      if a[0] == b[0] {
        SubseqMembers(a[1..], b[1..]);
        assert a == [a[0]] + a[1..];
      } else {
        SubseqMembers(a, b[1..]);
      }
    }
  }

  /** Filtering both removes at least as many from the longer. */
  lemma {:induction false} SubseqKeep(a: seq<Item>, b: seq<Item>, p: Item -> bool)
    requires Subseq(a, b)
    ensures Subseq(Keep(a, p), Keep(b, p))
    ensures |Keep(b, p)| - |Keep(a, p)| <= |b| - |a|
    decreases |b|
  {
    if a == [] {
    } else if a[0] == b[0] {
      SubseqKeep(a[1..], b[1..], p);
      if p(a[0]) {
        SubseqBoth(a[0], Keep(a[1..], p), Keep(b[1..], p));
      } else {
        assert Keep(a, p) == Keep(a[1..], p) && Keep(b, p) == Keep(b[1..], p);
      }
    } else {
      SubseqKeep(a, b[1..], p);
      if p(b[0]) {
        SubseqSkip(Keep(a, p), b[0], Keep(b[1..], p));
      } else {
        assert Keep(b, p) == Keep(b[1..], p);
      }
    }
  }

  /** The last of the longer may go unless the shorter ends in it; both lasts may go together. */
  lemma {:induction false} SubseqLast(a: seq<Item>, b: seq<Item>)
    requires Subseq(a, b) && b != []
    ensures a != [] ==> Subseq(a[..|a| - 1], b[..|b| - 1])
    ensures a == [] || a[|a| - 1] != b[|b| - 1] ==> Subseq(a, b[..|b| - 1])
    decreases |b|
  {
    if a != [] && |b| > 1 {
      assert b[..|b| - 1][1..] == b[1..][..|b| - 2];
      if a[0] == b[0] {
        SubseqLast(a[1..], b[1..]);
        if |a| > 1 {
          assert a[..|a| - 1][1..] == a[1..][..|a| - 2];
        }
      } else {
        SubseqLast(a, b[1..]);
      }
    }
  }

  lemma {:induction false} KeepIsSubseq(s: seq<Item>, p: Item -> bool)
    ensures Subseq(Keep(s, p), s)
  {
    if s != [] {
      KeepIsSubseq(s[1..], p);
      assert s == [s[0]] + s[1..];
      if p(s[0]) {
        SubseqBoth(s[0], Keep(s[1..], p), s[1..]);
      } else {
        assert Keep(s, p) == Keep(s[1..], p);
        SubseqSkip(Keep(s[1..], p), s[0], s[1..]);
      }
    }
  }

  // ---------- a bigger cache never hits less ----------

  /** The smaller cache holds some of the larger one's entries, in the larger one's order, and lacks
      at most as many as its capacity is smaller. */
  ghost predicate Included(small: seq<Item>, c: nat, large: seq<Item>, d: nat) {
    Subseq(small, large) && |large| - |small| <= d - c
  }

  ghost predicate Sane(s: seq<Item>, capacity: nat) {
    1 <= capacity && Distinct(s) && |s| <= capacity
  }

  lemma SameEntry(small: seq<Item>, large: seq<Item>, k: Key)
    requires Subseq(small, large) && Distinct(large) && HasKey(small, k)
    ensures HasKey(large, k) && Entry(large, k) == Entry(small, k)
  {
    SubseqMembers(small, large);
    EntryUnique(large, Entry(small, k));
  }

  lemma IncludedAfterPut(small: seq<Item>, c: nat, large: seq<Item>, d: nat, k: Key, v: CacheValue, now: int)
    requires Sane(small, c) && Sane(large, d) && c <= d && Included(small, c, large, d)
    ensures Included(Put(small, c, k, v, now), c, Put(large, d, k, v, now), d)
  {
    var e := Item(k, v, now);
    var small', large' := Put(small, c, k, v, now), Put(large, d, k, v, now);
    var s, l := small'[1..], large'[1..];
    if HasKey(small, k) {
      SameEntry(small, large, k);
      SubseqKeep(small, large, OtherThan(k));
      WithoutOne(small, k);
      WithoutOne(large, k);
    } else if HasKey(large, k) {
      SubseqKeep(small, large, OtherThan(k));
      KeepAll(small, OtherThan(k));
      WithoutOne(large, k);
      if |small| >= c {
        SubseqLast(small, large);
        ShorterStillIn(small, Keep(large, OtherThan(k)));
      }
    } else {
      SubseqMembers(small, large);
      if |small| >= c {
        if |large| >= d {
          SubseqLast(small, large);
        } else {
          ShorterStillIn(small, large);
        }
      }
    }
    SubseqBoth(e, s, l);
    assert small' == [e] + s && large' == [e] + l;
  }

  lemma {:induction false} ShorterStillIn(a: seq<Item>, b: seq<Item>)
    requires Subseq(a, b) && a != []
    ensures Subseq(a[..|a| - 1], b)
    decreases |b|
  {
    if |a| > 1 {
      if a[0] == b[0] {
        ShorterStillIn(a[1..], b[1..]);
        assert a[..|a| - 1][1..] == a[1..][..|a| - 2];
      } else {
        ShorterStillIn(a, b[1..]);
      }
    }
  }

  lemma IncludedAfterGet(small: seq<Item>, c: nat, large: seq<Item>, d: nat, k: Key, now: int)
    requires Sane(small, c) && Sane(large, d) && c <= d && Included(small, c, large, d)
    ensures Included(Get(small, k, now), c, Get(large, k, now), d)
    ensures Hit(small, k, now) ==> Lookup(large, k, now) == Lookup(small, k, now)
  {
    SubseqKeep(small, large, OtherThan(k));
    if HasKey(small, k) {
      SameEntry(small, large, k);
      WithoutOne(small, k);
      WithoutOne(large, k);
      SubseqBoth(Entry(small, k), Keep(small, OtherThan(k)), Keep(large, OtherThan(k)));
    } else if HasKey(large, k) {
      KeepAll(small, OtherThan(k));
      WithoutOne(large, k);
      SubseqSkip(small, Entry(large, k), Keep(large, OtherThan(k)));
    }
  }

  lemma IncludedAfterStep(small: seq<Item>, c: nat, large: seq<Item>, d: nat, op: Op)
    requires Sane(small, c) && Sane(large, d) && c <= d && Included(small, c, large, d)
    ensures Included(Step(c, small, op), c, Step(d, large, op), d)
  {
    match op
    case PutOp(k, v, now) => IncludedAfterPut(small, c, large, d, k, v, now);
    case GetOp(k, now) => IncludedAfterGet(small, c, large, d, k, now);
    case PruneOp(now) => SubseqKeep(small, large, Fresh(now));
  }

  lemma {:induction false} RunSane(c: nat, ops: seq<Op>)
    requires 1 <= c
    ensures Sane(Run(c, [], ops), c)
  {
    if ops != [] {
      RunSane(c, ops[..|ops| - 1]);
      StepKeeps(c, Run(c, [], ops[..|ops| - 1]), ops[|ops| - 1]);
    }
  }

  /** After any history the smaller cache is included in the larger, so what hits in the smaller hits
      in the larger, with the same value. */
  lemma {:induction false} BiggerCacheNeverHitsLess(c: nat, d: nat, ops: seq<Op>, k: Key, now: int)
    requires 1 <= c <= d
    ensures Included(Run(c, [], ops), c, Run(d, [], ops), d)
    ensures Hit(Run(c, [], ops), k, now) ==> Lookup(Run(d, [], ops), k, now) == Lookup(Run(c, [], ops), k, now)
  {
    hide Step, Get, Sane, Included;
    if ops == [] {
      NothingIncluded(c, d);
    } else {
      var before, op := ops[..|ops| - 1], ops[|ops| - 1];
      BiggerCacheNeverHitsLess(c, d, before, k, now);
      RunSane(c, before);
      RunSane(d, before);
      IncludedAfterStep(Run(c, [], before), c, Run(d, [], before), d, op);
    }
    RunSane(c, ops);
    RunSane(d, ops);
    IncludedAfterGet(Run(c, [], ops), c, Run(d, [], ops), d, k, now);
  }

  lemma NothingIncluded(c: nat, d: nat)
    requires c <= d
    ensures Included([], c, [], d)
  {
  }

  // ---------- pruning is transparent ----------

  ghost predicate OnlyReads(ops: seq<Op>, since: int) {
    forall op | op in ops :: !op.PutOp? && op.now >= since
  }

  /** What the gets among the operations answer, in order. */
  ghost function Answers(c: nat, s: seq<Item>, ops: seq<Op>): seq<Option<CacheValue>>
    requires c >= 1
    decreases |ops|
  {
    if ops == [] then []
    else (if ops[0].GetOp? then [Lookup(s, ops[0].key, ops[0].now)] else []) + Answers(c, Step(c, s, ops[0]), ops[1..])
  }

  /** Prune removes exactly the expired entries and keeps the order of the rest. */
  lemma PruneExact(s: seq<Item>, now: int)
    ensures Subseq(Prune(s, now), s)
    ensures forall e :: e in Prune(s, now) <==> e in s && !Expired(e, now)
  {
    KeepIsSubseq(s, Fresh(now));
  }

  lemma PrunedKey(s: seq<Item>, k: Key, t: int)
    requires Distinct(s)
    ensures HasKey(Prune(s, t), k) <==> HasKey(s, k) && !Expired(Entry(s, k), t)
    ensures HasKey(Prune(s, t), k) ==> Entry(Prune(s, t), k) == Entry(s, k)
  {
    var r := Prune(s, t);
    KeepDistinct(s, Fresh(t));
    if HasKey(r, k) {
      EntryUnique(s, Entry(r, k));
    }
    if HasKey(s, k) && !Expired(Entry(s, k), t) {
      EntryUnique(r, Entry(s, k));
    }
  }

  /** A read after a prune answers as without it, and leaves the pruned cache the pruned one. */
  lemma ReadCommutesWithPrune(c: nat, s: seq<Item>, op: Op, t: int)
    requires c >= 1 && Distinct(s) && !op.PutOp? && op.now >= t
    ensures Step(c, Prune(s, t), op) == Prune(Step(c, s, op), t)
    ensures op.GetOp? ==> Lookup(Prune(s, t), op.key, op.now) == Lookup(s, op.key, op.now)
  {
    match op
    case PruneOp(now) => KeepTwice(s, Fresh(t), Fresh(now));
    case GetOp(k, now) =>
      PrunedKey(s, k, t);
      KeepTwice(s, Fresh(t), OtherThan(k));
      if HasKey(s, k) {
        var e := Entry(s, k);
        ExpiryIsMonotone(e, t, now);
        KeepFront(e, Keep(s, OtherThan(k)), Fresh(t));
        if Expired(e, t) {
          KeepAll(Prune(s, t), OtherThan(k));
        }
      }
  }

  /** A prune at time t never changes the answer of any get at time t or later before the next put. */
  lemma {:induction false} PruneIsTransparent(c: nat, s: seq<Item>, t: int, ops: seq<Op>)
    requires Sane(s, c) && OnlyReads(ops, t)
    ensures Answers(c, Prune(s, t), ops) == Answers(c, s, ops)
    decreases |ops|
  {
    hide Step, Prune, Lookup;
    if ops != [] {
      ReadCommutesWithPrune(c, s, ops[0], t);
      StepKeeps(c, s, ops[0]);
      PruneIsTransparent(c, Step(c, s, ops[0]), t, ops[1..]);
    }
  }

  // ---------- least recently used ----------

  /** The key an operation uses: put always, get when it hits. */
  ghost function Uses(s: seq<Item>, op: Op): Option<Key> {
    match op
    case PutOp(k, _, _) => Some(k)
    case GetOp(k, now) => if Hit(s, k, now) then Some(k) else None
    case PruneOp(_) => None
  }

  /** The index of the operation that last used the key, or -1. */
  ghost function LastUse(c: nat, ops: seq<Op>, k: Key): int
    requires c >= 1
    decreases |ops|
  {
    if ops == [] then -1
    else
      var before := ops[..|ops| - 1];
      if Uses(Run(c, [], before), ops[|ops| - 1]) == Some(k) then |before| else LastUse(c, before, k)
  }

  lemma {:induction false} LastUseBelow(c: nat, ops: seq<Op>, k: Key)
    requires c >= 1
    ensures LastUse(c, ops, k) < |ops|
    decreases |ops|
  {
    if ops != [] {
      LastUseBelow(c, ops[..|ops| - 1], k);
    }
  }

  ghost predicate OrderedBy(s: seq<Item>, use: Key -> int) {
    forall i, j | 0 <= i < j < |s| :: use(s[i].key) > use(s[j].key)
  }

  lemma {:induction false} KeepOrdered(s: seq<Item>, p: Item -> bool, use: Key -> int)
    requires OrderedBy(s, use)
    ensures OrderedBy(Keep(s, p), use)
  {
    if s != [] {
      KeepOrdered(s[1..], p, use);
      assert forall e | e in s[1..] :: use(s[0].key) > use(e.key);
      FrontOrdered(s[0], Keep(s[1..], p), use);
    }
  }

  lemma FrontOrdered(e: Item, s: seq<Item>, use: Key -> int)
    requires OrderedBy(s, use) && forall x | x in s :: use(e.key) > use(x.key)
    ensures OrderedBy([e] + s, use)
  {
    var r := [e] + s;
    forall i, j | 0 <= i < j < |r|
      ensures use(r[i].key) > use(r[j].key)
    {
      assert r[j] == s[j - 1] && s[j - 1] in s;
      assert i > 0 ==> r[i] == s[i - 1];
    }
  }

  ghost function UseOf(c: nat, ops: seq<Op>): Key -> int
    requires c >= 1
  {
    (k: Key) => LastUse(c, ops, k)
  }

  /** The list is ordered by last use, the latest first; so the entry put evicts, the last one, is the
      one whose last use is the oldest. */
  lemma {:induction false} OrderedByLastUse(c: nat, ops: seq<Op>)
    requires c >= 1
    ensures OrderedBy(Run(c, [], ops), UseOf(c, ops))
    decreases |ops|
  {
    hide OrderedBy, LastUse, UseOf, Sane, Step;
    if ops == [] {
      NothingOrdered(UseOf(c, []));
    } else {
      var before, op := ops[..|ops| - 1], ops[|ops| - 1];
      OrderedByLastUse(c, before);
      RunSane(c, before);
      StepOrdered(c, before, op);
      assert ops == before + [op];
    }
  }

  lemma NothingOrdered(use: Key -> int)
    ensures OrderedBy([], use)
  {
  }

  lemma StepOrdered(c: nat, before: seq<Op>, op: Op)
    requires c >= 1 && Sane(Run(c, [], before), c)
    requires OrderedBy(Run(c, [], before), UseOf(c, before))
    ensures OrderedBy(Run(c, [], before + [op]), UseOf(c, before + [op]))
  {
    var s, use, use' := Run(c, [], before), UseOf(c, before), UseOf(c, before + [op]);
    var used := Uses(s, op);
    assert (before + [op])[..|before|] == before;
    forall k
      ensures use'(k) == if used == Some(k) then |before| else use(k)
      ensures use(k) < |before|
    {
      LastUseBelow(c, before, k);
    }
    assert Run(c, [], before + [op]) == Step(c, s, op);
    UsedToFront(c, s, op, use, use', |before|);
  }

  lemma UsedToFront(c: nat, s: seq<Item>, op: Op, use: Key -> int, use': Key -> int, now: int)
    requires c >= 1 && Distinct(s) && OrderedBy(s, use)
    requires forall k :: use(k) < now && use'(k) == if Uses(s, op) == Some(k) then now else use(k)
    ensures OrderedBy(Step(c, s, op), use')
  {
    match op
    case PruneOp(t) =>
      KeepOrdered(s, Fresh(t), use);
      SameOrder(Keep(s, Fresh(t)), use, use');
    case GetOp(k, t) =>
      var rest := Keep(s, OtherThan(k));
      KeepOrdered(s, OtherThan(k), use);
      SameOrder(rest, use, use');
      if Hit(s, k, t) {
        FrontOrdered(Entry(s, k), rest, use');
      } else {
        SameOrder(s, use, use');
      }
    case PutOp(k, v, t) =>
      var rest := Put(s, c, k, v, t)[1..];
      assert Put(s, c, k, v, t) == [Item(k, v, t)] + rest;
      if HasKey(s, k) {
        KeepOrdered(s, OtherThan(k), use);
      } else {
        assert rest <= s;
        assert forall i | 0 <= i < |rest| :: rest[i] == s[i] && s[i].key != k;
      }
      SameOrder(rest, use, use');
      FrontOrdered(Item(k, v, t), rest, use');
  }

  lemma SameOrder(s: seq<Item>, use: Key -> int, use': Key -> int)
    requires OrderedBy(s, use) && forall e | e in s :: use'(e.key) == use(e.key)
    ensures OrderedBy(s, use')
  {
    assert forall i | 0 <= i < |s| :: s[i] in s;
  }

  /** Whoever a put evicts was used before every other entry. */
  lemma VictimIsOldest(c: nat, ops: seq<Op>, put: Op, k: Key, other: Key)
    requires c >= 1 && put.PutOp? && put.key != k && HasKey(Run(c, [], ops), k)
    requires !HasKey(Step(c, Run(c, [], ops), put), k)
    requires HasKey(Run(c, [], ops), other) && other != k
    ensures LastUse(c, ops, other) > LastUse(c, ops, k)
  {
    hide Step, LastUse, Run;
    var s := Run(c, [], ops);
    RunSane(c, ops);
    OrderedByLastUse(c, ops);
    LastEvicted(c, s, put, k);
    var i :| 0 <= i < |s| && s[i].key == other;
    assert UseOf(c, ops)(s[i].key) > UseOf(c, ops)(s[|s| - 1].key);
  }

  // ---------- survival ----------

  ghost function Ahead(s: seq<Item>, k: Key): set<Key> {
    if s == [] || s[0].key == k then {} else {s[0].key} + Ahead(s[1..], k)
  }

  lemma AheadFront(e: Item, s: seq<Item>, k: Key)
    requires e.key != k
    ensures Ahead([e] + s, k) == {e.key} + Ahead(s, k)
  {
    assert ([e] + s)[1..] == s;
  }

  lemma {:induction false} AheadKeep(s: seq<Item>, p: Item -> bool, k: Key)
    requires Distinct(s) && HasKey(Keep(s, p), k)
    ensures Ahead(Keep(s, p), k) <= Ahead(s, k)
  {
    if p(s[0]) {
      if s[0].key != k {
        HasKeyTail(Keep(s, p), k);
        assert Keep(s, p)[1..] == Keep(s[1..], p);
        AheadKeep(s[1..], p, k);
        AheadFront(s[0], Keep(s[1..], p), k);
      }
    } else {
      assert Keep(s, p) == Keep(s[1..], p);
      assert s[0].key != k by {
        assert Entry(Keep(s, p), k) in s[1..];
      }
      AheadKeep(s[1..], p, k);
    }
  }

  lemma HasKeyTail(s: seq<Item>, k: Key)
    requires HasKey(s, k) && s[0].key != k
    ensures HasKey(s[1..], k)
  {
    var i :| 0 <= i < |s| && s[i].key == k;
    assert s[1..][i - 1].key == k;
  }

  lemma {:induction false} AheadTake(s: seq<Item>, n: nat, k: Key)
    requires n <= |s| && HasKey(s[..n], k)
    ensures Ahead(s[..n], k) == Ahead(s, k)
  {
    if s[0].key != k {
      HasKeyTail(s[..n], k);
      assert s[..n][1..] == s[1..][..n - 1];
      AheadTake(s[1..], n - 1, k);
    }
  }

  lemma {:induction false} AheadOfLast(s: seq<Item>, k: Key)
    requires Distinct(s) && s != [] && s[|s| - 1].key == k
    ensures |Ahead(s, k)| == |s| - 1
    ensures forall x | x in Ahead(s, k) :: HasKey(s, x) && x != k
  {
    hide Distinct, HasKey, Ahead;
    DistinctFront(s);
    assert s == [s[0]] + s[1..];
    if |s| > 1 {
      assert s[1..][|s| - 2] == s[|s| - 1] && s[|s| - 1] in s[1..];
      AheadOfLast(s[1..], k);
      AheadFront(s[0], s[1..], k);
      forall x | x in Ahead(s[1..], k)
        ensures HasKey(s, x) && x != s[0].key
      {
        KeyOfTail(s, x);
      }
      KeyOfFront(s);
    } else {
      NoneAhead(s, k);
    }
  }

  lemma DistinctFront(s: seq<Item>)
    requires Distinct(s) && s != []
    ensures Distinct(s[1..]) && forall e | e in s[1..] :: e.key != s[0].key
  {
  }

  lemma KeyOfTail(s: seq<Item>, x: Key)
    requires Distinct(s) && s != [] && HasKey(s[1..], x)
    ensures HasKey(s, x) && x != s[0].key
  {
    var i :| 0 <= i < |s[1..]| && s[1..][i].key == x;
    assert s[i + 1].key == x;
  }

  lemma KeyOfFront(s: seq<Item>)
    requires s != []
    ensures HasKey(s, s[0].key)
  {
  }

  lemma NoneAhead(s: seq<Item>, k: Key)
    requires s != [] && s[0].key == k
    ensures Ahead(s, k) == {}
  {
  }

  ghost function AsSet(used: Option<Key>): set<Key> {
    if used.Some? then {used.value} else {}
  }

  /** The keys used by a run of operations. */
  ghost function UsedIn(c: nat, s: seq<Item>, ops: seq<Op>): set<Key>
    requires c >= 1
    decreases |ops|
  {
    if ops == [] then {}
    else
      var before := ops[..|ops| - 1];
      UsedIn(c, s, before) + AsSet(Uses(Run(c, s, before), ops[|ops| - 1]))
  }

  /** An operation that does not use a key neither brings it in nor lets others past it unused. */
  lemma AheadStep(c: nat, s: seq<Item>, op: Op, k: Key)
    requires Sane(s, c) && Uses(s, op) != Some(k) && HasKey(Step(c, s, op), k)
    ensures HasKey(s, k)
    ensures Ahead(Step(c, s, op), k) <= Ahead(s, k) + AsSet(Uses(s, op))
  {
    var s' := Step(c, s, op);
    assert Entry(s', k) in s';
    match op
    case PruneOp(now) =>
      assert Entry(s', k) in s;
      AheadKeep(s, Fresh(now), k);
    case GetOp(j, now) =>
      if HasKey(s, j) {
        var rest := Keep(s, OtherThan(j));
        if Hit(s, j, now) {
          assert s'[0].key != k && s'[1..] == rest;
          HasKeyTail(s', k);
          AheadFront(Entry(s, j), rest, k);
        }
        assert Entry(rest, k) in s;
        AheadKeep(s, OtherThan(j), k);
      }
    case PutOp(j, v, now) =>
      var rest := s'[1..];
      assert s' == [Item(j, v, now)] + rest;
      HasKeyTail(s', k);
      AheadFront(Item(j, v, now), rest, k);
      assert Entry(rest, k) in rest;
      if HasKey(s, j) {
        assert Entry(rest, k) in s;
        AheadKeep(s, OtherThan(j), k);
      } else {
        var n := if |s| >= c then |s| - 1 else |s|;
        assert rest == s[..n];
        assert Entry(rest, k) in s;
        AheadTake(s, n, k);
      }
  }

  /** No operation of the run uses the key. */
  ghost predicate Unused(c: nat, s: seq<Item>, ops: seq<Op>, k: Key)
    requires c >= 1
    decreases |ops|
  {
    ops == [] || (var before := ops[..|ops| - 1];
                  Unused(c, s, before, k) && Uses(Run(c, s, before), ops[|ops| - 1]) != Some(k))
  }

  lemma {:induction false} RunKeepsSane(c: nat, s: seq<Item>, ops: seq<Op>)
    requires Sane(s, c)
    ensures Sane(Run(c, s, ops), c)
    decreases |ops|
  {
    if ops != [] {
      RunKeepsSane(c, s, ops[..|ops| - 1]);
      StepKeeps(c, Run(c, s, ops[..|ops| - 1]), ops[|ops| - 1]);
    }
  }

  /** As long as an entry once in front stays without being used, only used keys stand before it. */
  lemma {:induction false} OnlyUsedAhead(c: nat, s: seq<Item>, ops: seq<Op>, k: Key)
    requires Sane(s, c) && s != [] && s[0].key == k
    requires Unused(c, s, ops, k) && HasKey(Run(c, s, ops), k)
    ensures Ahead(Run(c, s, ops), k) <= UsedIn(c, s, ops) && k !in UsedIn(c, s, ops)
    decreases |ops|
  {
    hide Uses, Step;
    if ops != [] {
      var before, op := ops[..|ops| - 1], ops[|ops| - 1];
      RunKeepsSane(c, s, before);
      AheadStep(c, Run(c, s, before), op, k);
      OnlyUsedAhead(c, s, before, k);
    }
  }

  /** A put or a hit brings its key to the front. */
  lemma UsedGoesInFront(c: nat, s: seq<Item>, op: Op, k: Key)
    requires c >= 1 && Uses(s, op) == Some(k)
    ensures Step(c, s, op) != [] && Step(c, s, op)[0].key == k
  {
  }

  /** A key put or hit is not evicted until at least `capacity` other keys have been put or hit. */
  lemma EvictionNeedsCapacityUses(c: nat, s: seq<Item>, use: Op, ops: seq<Op>, put: Op, k: Key)
    requires Sane(s, c) && Uses(s, use) == Some(k)
    requires var used := Step(c, s, use);
             Unused(c, used, ops, k) && HasKey(Run(c, used, ops), k) &&
             put.PutOp? && put.key != k && !HasKey(Step(c, Run(c, used, ops), put), k)
    ensures var others := UsedIn(c, Step(c, s, use), ops + [put]);
            |others| >= c && k !in others
  {
    hide Step, Unused, UsedIn, Uses, HasKey, Run;
    UsedGoesInFront(c, s, use, k);
    StepKeeps(c, s, use);
    FrontSurvives(c, Step(c, s, use), ops, put, k);
  }

  lemma FrontSurvives(c: nat, s: seq<Item>, ops: seq<Op>, put: Op, k: Key)
    requires Sane(s, c) && s != [] && s[0].key == k
    requires Unused(c, s, ops, k) && HasKey(Run(c, s, ops), k)
    requires put.PutOp? && put.key != k && !HasKey(Step(c, Run(c, s, ops), put), k)
    ensures |UsedIn(c, s, ops + [put])| >= c && k !in UsedIn(c, s, ops + [put])
  {
    hide Step, Unused, UsedIn, Ahead, HasKey, Distinct, Run;
    var r, j := Run(c, s, ops), put.key;
    RunKeepsSane(c, s, ops);
    OnlyUsedAhead(c, s, ops, k);
    PutIsUse(c, s, ops, put);
    LastEvicted(c, r, put, k);
    AheadOfLast(r, k);
    SubsetCount(Ahead(r, k) + {j}, UsedIn(c, s, ops + [put]));
  }

  lemma PutIsUse(c: nat, s: seq<Item>, ops: seq<Op>, put: Op)
    requires c >= 1 && put.PutOp?
    ensures UsedIn(c, s, ops + [put]) == UsedIn(c, s, ops) + {put.key}
  {
    assert (ops + [put])[..|ops|] == ops;
  }

  /** A put removes another key only from a full cache, and then it is the last entry's. */
  lemma LastEvicted(c: nat, s: seq<Item>, put: Op, k: Key)
    requires Sane(s, c) && put.PutOp? && put.key != k && HasKey(s, k)
    ensures HasKey(Step(c, s, put), k) || (!HasKey(s, put.key) && |s| == c && s[|s| - 1].key == k)
  {
    hide Hit, Expired, Distinct, Keep, HasKey;
    var s' := Step(c, s, put);
    var i := IndexOf(s, k);
    if HasKey(s, put.key) {
      KeptEntry(s, OtherThan(put.key), s[i]);
      var m: nat :| m < |Keep(s, OtherThan(put.key))| && Keep(s, OtherThan(put.key))[m] == s[i];
      KeyAt(s', m + 1);
    } else if i < |s| - 1 || |s| < c {
      KeyAt(s', i + 1);
    }
  }

  ghost function IndexOf(s: seq<Item>, k: Key): (i: nat)
    requires HasKey(s, k)
    ensures i < |s| && s[i].key == k
  {
    var i: nat :| i < |s| && s[i].key == k;
    i
  }

  lemma KeyAt(s: seq<Item>, i: nat)
    requires i < |s|
    ensures HasKey(s, s[i].key)
  {
  }

  lemma KeptEntry(s: seq<Item>, p: Item -> bool, e: Item)
    requires e in s && p(e)
    ensures exists m: nat :: m < |Keep(s, p)| && Keep(s, p)[m] == e
  {
    assert e in Keep(s, p);
  }
}
