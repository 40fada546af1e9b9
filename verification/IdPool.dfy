/** The pool of relay ids, src/dns/id_factory.c: a stack of free ids beside an in-use flag per id. */
module IdFactory {
  import opened Common

  const ID_COUNT: nat := 65536

  ghost function UpTo(n: nat): (r: set<int>)
    ensures |r| == n && forall x :: x in r <==> 0 <= x < n
  {
    if n == 0 then {} else UpTo(n - 1) + {n - 1}
  }

  ghost function Elements(s: seq<int>): set<int> {
    set x | x in s
  }

  lemma {:induction false} DistinctCount(s: seq<int>)
    requires forall i, j | 0 <= i < j < |s| :: s[i] != s[j]
    ensures |Elements(s)| == |s|
  {
    if s != [] {
      var most, last := s[..|s| - 1], s[|s| - 1];
      DistinctCount(most);
      assert s == most + [last];
      assert Elements(s) == Elements(most) + {last};
      assert forall i | 0 <= i < |most| :: most[i] == s[i] != last;
      assert last !in Elements(most);
    }
  }

  /** Distinct ids of which one is missing are not all of them. */
  lemma MissingOne(s: seq<uint16>, missing: uint16)
    requires forall i, j | 0 <= i < j < |s| :: s[i] != s[j]
    requires missing !in s
    ensures |s| < ID_COUNT
  {
    DistinctCount(s);
    SubsetCount(Elements(s), UpTo(ID_COUNT) - {missing});
  }

  class IdPool {
    const ids: array<uint16>
    const st: array<bool>
    var top: int

    /** `ids[0..top]` lists, without repeats, exactly the ids whose flag is clear. */
    ghost predicate Valid()
      reads this, ids, st
    {
      && ids.Length == ID_COUNT && st.Length == ID_COUNT
      && -1 <= top < ID_COUNT
      && (forall i, j | 0 <= i < j <= top :: ids[i] != ids[j])
      && (forall i | 0 <= i <= top :: !st[ids[i]])
      && (forall id: uint16 :: !st[id] ==> id in ids[..top + 1])
    }

    /** The free ids, the next to be handed out last. */
    ghost function Free(): seq<uint16>
      requires Valid()
      reads this, ids, st
    {
      ids[..top + 1]
    }

    ghost function Used(): set<uint16>
      requires Valid()
      reads this, ids, st
    {
      set id: uint16 | 0 <= id < ID_COUNT && st[id]
    }

    constructor ()
      ensures Valid() && fresh(ids) && fresh(st)
      ensures Used() == {} && |Free()| == 65536 && forall id: uint16 :: Free()[id] == id
    {
      var slots := new uint16[ID_COUNT];
      var flags := new bool[ID_COUNT](i => false);
      ids, st, top := slots, flags, ID_COUNT - 1;
      new;
      var i: int := 0;
      while i < ID_COUNT
        invariant 0 <= i <= ID_COUNT && fresh(ids) && fresh(st) && ids.Length == st.Length == ID_COUNT
        invariant top == ID_COUNT - 1
        invariant forall j | 0 <= j < i :: ids[j] == j
        invariant forall j | 0 <= j < ID_COUNT :: !st[j]
      {
        ids[i] := i;
        i := i + 1;
      }
      forall id: uint16 | !st[id]
        ensures id in ids[..top + 1]
      {
        assert ids[..top + 1][id] == id;
      }
    }

    /** Hands out an id nobody holds; fails exactly when all ids are in use. */
    method Alloc() returns (failed: bool, id: uint16)
      requires Valid()
      modifies this`top, st
      ensures Valid()
      ensures failed <==> forall x: uint16 :: x in old(Used())
      ensures failed ==> Free() == old(Free()) && Used() == old(Used())
      ensures !failed ==> id !in old(Used()) && Used() == old(Used()) + {id}
      ensures !failed ==> Free() + [id] == old(Free())
    {
      if top < 0 {
        assert ids[..top + 1] == [];
        assert forall x: uint16 :: x in Used();
        return true, 0;
      }
      id := ids[top];
      ghost var free := ids[..top + 1];
      assert free[top] == id && id !in old(Used());
      st[id] := true;
      top := top - 1;
      assert free == ids[..top + 1] + [id];
      failed := false;
    }

    /** Takes an id back. Freeing an id that is not in use changes nothing. */
    method FreeId(id: uint16)
      requires Valid()
      modifies this`top, st, ids
      ensures Valid()
      ensures Free() == if id in old(Used()) then old(Free()) + [id] else old(Free())
      ensures Used() == old(Used()) - {id}
    {
      if st[id] {
        ghost var free := ids[..top + 1];
        assert id !in free;
        MissingOne(free, id);
        if top < ID_COUNT - 1 {
          st[id] := false;
          top := top + 1;
          ids[top] := id;
          assert ids[..top + 1] == free + [id];
        }
      }
    }
  }
}
