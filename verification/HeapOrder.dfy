/**
 The order that lazy deletion leaves in the timer heap of src/infra/stl.c. A dead element may sit
 anywhere, so the parent/child order of an ordinary heap is lost; what is kept is an order between
 every live element and every live element anywhere below it.
 */
module HeapOrder {
  /** A heap slot: a logically deleted element, or a live one with its timestamp. */
  datatype Slot = Dead | Live(time: int)

  /** `i` lies strictly above `j` in the implicit tree with root 1. */
  ghost predicate Above(i: nat, j: nat) {
    1 <= i < j && (j / 2 == i || Above(i, j / 2))
  }

  ghost predicate LeqWhenLive(a: Slot, b: Slot) {
    a.Live? && b.Live? ==> a.time <= b.time
  }

  /** Slot 0 is not part of the heap. */
  ghost predicate LiveOrder(s: seq<Slot>) {
    forall i: nat, j: nat :: Above(i, j) && j < |s| ==> LeqWhenLive(s[i], s[j])
  }

  /** `heap_element_compare(a, b) > 0`; dead elements come before live ones. */
  predicate Greater(a: Slot, b: Slot) {
    a.Live? && (b.Dead? || a.time > b.time)
  }

  function Swap(s: seq<Slot>, i: nat, j: nat): seq<Slot>
    requires i < |s| && j < |s|
  {
    s[i := s[j]][j := s[i]]
  }

  // ---------- geometry ----------

  lemma {:induction false} AboveTransitive(i: nat, j: nat, k: nat)
    requires Above(i, j) && (Above(j, k) || j == k)
    ensures Above(i, k)
    decreases k
  {
    if j < k && k / 2 != j {
      AboveTransitive(i, j, k / 2);
    }
  }

  /** Two slots on one path to the root are comparable. */
  lemma {:induction false} PathIsChain(i: nat, j: nat, k: nat)
    requires Above(i, k) && Above(j, k)
    ensures i == j || Above(i, j) || Above(j, i)
    decreases k
  {
    if k / 2 != i && k / 2 != j {
      PathIsChain(i, j, k / 2);
    }
  }

  /** What lies below a slot is one of its two children or lies below one. */
  lemma {:induction false} BelowThroughChild(i: nat, j: nat)
    requires Above(i, j)
    ensures j == 2 * i || j == 2 * i + 1 || Above(2 * i, j) || Above(2 * i + 1, j)
    decreases j
  {
    if j / 2 != i {
      BelowThroughChild(i, j / 2);
      if j / 2 == 2 * i || j / 2 == 2 * i + 1 {
        assert Above(j / 2, j);
      } else if Above(2 * i, j / 2) {
        AboveTransitive(2 * i, j / 2, j);
      } else {
        AboveTransitive(2 * i + 1, j / 2, j);
      }
    }
  }

  lemma {:induction false} RootAboveAll(j: nat)
    requires j >= 2
    ensures Above(1, j)
  {
    if j / 2 > 1 {
      RootAboveAll(j / 2);
    }
  }

  lemma RootEarliest(s: seq<Slot>, j: nat)
    requires LiveOrder(s) && 1 <= j < |s|
    ensures LeqWhenLive(s[1], s[j])
  {
    if j >= 2 {
      RootAboveAll(j);
    }
  }

  // ---------- sifting down ----------

  /** The order, except that the element at `u` has not been compared with what lies below it. */
  ghost predicate OrderedButFrom(s: seq<Slot>, u: nat) {
    forall i: nat, j: nat :: Above(i, j) && j < |s| && i != u ==> LeqWhenLive(s[i], s[j])
  }

  /** The child that one round of `down` picks: of a live element, a dead child or the smaller one. */
  function DownChoice(s: seq<Slot>, u: nat): (t: nat)
    requires 1 <= u < |s|
    ensures t == u || t == 2 * u || t == 2 * u + 1
    ensures t < |s|
  {
    var l := if 2 * u < |s| && Greater(s[u], s[2 * u]) then 2 * u else u;
    if 2 * u + 1 < |s| && Greater(s[l], s[2 * u + 1]) then 2 * u + 1 else l
  }

  lemma DownStops(s: seq<Slot>, u: nat)
    requires 1 <= u < |s| && OrderedButFrom(s, u) && DownChoice(s, u) == u
    ensures LiveOrder(s)
  {
    forall j: nat | Above(u, j) && j < |s|
      ensures LeqWhenLive(s[u], s[j])
    {
      BelowThroughChild(u, j);
      assert Above(2 * u, j) ==> LeqWhenLive(s[2 * u], s[j]);
      assert Above(2 * u + 1, j) ==> LeqWhenLive(s[2 * u + 1], s[j]);
    }
  }

  lemma DownStep(s: seq<Slot>, u: nat)
    requires 1 <= u < |s| && OrderedButFrom(s, u) && DownChoice(s, u) != u
    ensures OrderedButFrom(Swap(s, u, DownChoice(s, u)), DownChoice(s, u))
  {
    var t := DownChoice(s, u);
    var s' := Swap(s, u, t);
    assert Above(u, t);
    forall i: nat, j: nat | Above(i, j) && j < |s| && i != t
      ensures LeqWhenLive(s'[i], s'[j])
    {
      if i == u {
        if j != t {
          BelowThroughChild(u, j);
          assert Above(2 * u, j) ==> LeqWhenLive(s[2 * u], s[j]);
          assert Above(2 * u + 1, j) ==> LeqWhenLive(s[2 * u + 1], s[j]);
        }
      } else if j == u {
        AboveTransitive(i, u, t);
      } else if j == t {
        assert Above(i, u);
      }
    }
  }

  // ---------- sifting up ----------

  /** The order, except that the element at `u` has not been compared with what lies above it. */
  ghost predicate OrderedButTo(s: seq<Slot>, u: nat) {
    forall i: nat, j: nat :: Above(i, j) && j < |s| && j != u ==> LeqWhenLive(s[i], s[j])
  }

  /** One round of `up` goes on while the parent is live and later. */
  predicate Climbs(s: seq<Slot>, u: nat)
    requires 1 <= u < |s|
  {
    u / 2 >= 1 && s[u].Live? && s[u / 2].Live? && s[u].time < s[u / 2].time
  }

  lemma UpStep(s: seq<Slot>, u: nat)
    requires 1 <= u < |s| && OrderedButTo(s, u) && Climbs(s, u)
    ensures OrderedButTo(Swap(s, u, u / 2), u / 2)
  {
    var q := u / 2;
    var s' := Swap(s, u, q);
    assert Above(q, u);
    forall i: nat, j: nat | Above(i, j) && j < |s| && j != q
      ensures LeqWhenLive(s'[i], s'[j])
    {
      if j == u {
        assert i == q || Above(i, q);
      } else if i == q {
      } else if i == u {
        AboveTransitive(q, u, j);
      }
    }
  }

  /** Where the last element may go: no later live element above it has a dead one in between. */
  ghost predicate MayInsert(s: seq<Slot>, time: int) {
    forall a: nat, b: nat ::
      Above(a, b) && Above(b, |s|) && s[a].Live? && s[a].time > time ==> s[b].Live?
  }

  /** How far the climb of a new last element has come: it stands at `u`, everything above is as
      before, and every slot it passed held a later live element. */
  ghost predicate Climbing(s: seq<Slot>, time: int, r: seq<Slot>, u: nat) {
    && 1 <= u < |r| == |s| + 1
    && r[u] == Live(time)
    && (u == |s| || Above(u, |s|))
    && OrderedButTo(r, u)
    && (forall a: nat :: Above(a, u) ==> r[a] == s[a])
    && (forall a: nat :: (a == u || Above(u, a)) && Above(a, |s|) ==> s[a].Live? && s[a].time > time)
  }

  lemma ClimbingAt(s: seq<Slot>, time: int, r: seq<Slot>, u: nat)
    requires Climbing(s, time, r, u)
    ensures 1 <= u < |r| && r[u] == Live(time)
  {
  }

  lemma ClimbingStart(s: seq<Slot>, time: int)
    requires |s| >= 1 && LiveOrder(s)
    ensures Climbing(s, time, s + [Live(time)], |s|)
  {
  }

  lemma ClimbingStep(s: seq<Slot>, time: int, r: seq<Slot>, u: nat)
    requires Climbing(s, time, r, u) && Climbs(r, u)
    ensures Climbing(s, time, Swap(r, u, u / 2), u / 2)
  {
    var q := u / 2;
    var r' := Swap(r, u, q);
    UpStep(r, u);
    assert Above(q, u);
    AboveTransitive(q, u, |s|);
    forall a: nat | Above(a, q)
      ensures r'[a] == s[a]
    {
      AboveTransitive(a, q, u);
    }
    forall a: nat | (a == q || Above(q, a)) && Above(a, |s|)
      ensures s[a].Live? && s[a].time > time
    {
      if u != |s| {
        PathIsChain(a, u, |s|);
      }
      if u == |s| || Above(a, u) {
        assert a == q || Above(a, q);
        assert a == q;
      }
    }
  }

  /** Insertion keeps the order exactly when the new timestamp may go there. */
  lemma InsertionExact(s: seq<Slot>, time: int, r: seq<Slot>, u: nat)
    requires LiveOrder(s) && Climbing(s, time, r, u) && !Climbs(r, u)
    ensures LiveOrder(r) <==> MayInsert(s, time)
  {
    var n := |s|;
    if MayInsert(s, time) {
      forall a: nat | Above(a, u)
        ensures LeqWhenLive(r[a], r[u])
      {
        var q := u / 2;
        assert a == q || Above(a, q);
        assert Above(q, u);
        AboveTransitive(q, u, n);
        assert a != q ==> LeqWhenLive(s[a], s[q]);
      }
    }
    if LiveOrder(r) {
      forall a: nat, b: nat | Above(a, b) && Above(b, n) && s[a].Live? && s[a].time > time
        ensures s[b].Live?
      {
        AboveTransitive(a, b, n);
        assert Above(a, u) ==> LeqWhenLive(r[a], r[u]);
        if u != n {
          PathIsChain(a, u, n);
          if Above(u, a) {
            AboveTransitive(u, a, b);
          }
        }
      }
    }
  }

  /** The relay's case: a timestamp no earlier than any live one may always be inserted. */
  lemma LatestMayInsert(s: seq<Slot>, time: int)
    requires forall i | 1 <= i < |s| :: s[i].Live? ==> s[i].time <= time
    ensures MayInsert(s, time)
  {
  }

  /** Root 10 with a dead left child: inserting 5 below it breaks the order. */
  lemma EarlierTimestampBreaksOrder()
    ensures var s := [Dead, Live(10), Dead, Live(12)];
            LiveOrder(s) && !MayInsert(s, 5) && !Climbs(s + [Live(5)], 4) && !LiveOrder(s + [Live(5)])
  {
    var s := [Dead, Live(10), Dead, Live(12)];
    var r := s + [Live(5)];
    assert Above(1, 2) && Above(2, 4) && Above(1, 4);
    forall i: nat, j: nat | Above(i, j) && j < |s|
      ensures LeqWhenLive(s[i], s[j])
    {
      assert j == 2 || j == 3;
    }
    assert !LeqWhenLive(r[1], r[4]);
  }
}
