/**
 Sessions (include/server/session.h) and the lazily deleting timer heap over them
 (src/infra/stl.c), with the comparator of src/server/session_factory.c built in.
 */
module TimerHeap {
  import opened Common
  import opened Messages
  import opened HeapOrder

  class Session {
    const clientId: uint16
    const clientEnd: NetEnd
    var timestamp: int
    var retryTimes: nat
    var relayPacket: Packet

    ghost const query: nat  // the serial number of the query it serves

    constructor (clientId: uint16, clientEnd: NetEnd, relayPacket: Packet, ghost query: nat)
      ensures this.clientId == clientId && this.clientEnd == clientEnd && this.query == query
      ensures this.retryTimes == 0 && this.relayPacket == relayPacket
    {
      this.clientId, this.clientEnd, this.query := clientId, clientEnd, query;
      this.timestamp, this.retryTimes := 0, 0;
      this.relayPacket := relayPacket;
    }
  }

  class HeapElement {
    const data: Session
    var isDeleted: bool
    ghost const key: uint16
    ghost var slot: nat  // the index of `elements` that holds this element

    constructor (key: uint16, data: Session, slot: nat)
      ensures this.data == data && !isDeleted && this.key == key && this.slot == slot
    {
      this.data, this.isDeleted, this.key, this.slot := data, false, key, slot;
    }

    ghost function AsSlot(): Slot
      reads `isDeleted, data`timestamp
    {
      if isDeleted then Dead else Live(data.timestamp)
    }
  }

  class LazyHeap {
    var elements: array<HeapElement?>  // slots 1..size
    var size: nat
    var capacity: nat
    var survivors: map<uint16, HeapElement>
    ghost var nodes: set<HeapElement>

    /** Slots and survivor table agree: the table maps each live element's key to it, and no more. */
    ghost predicate Shape()
      reads this, elements, nodes
    {
      && size <= capacity && elements.Length == capacity + 1
      && (forall i | 1 <= i <= size ::
            elements[i] != null && elements[i] in nodes && elements[i].slot == i)
      && (forall i | 1 <= i <= size ::
            !elements[i].isDeleted ==> elements[i].key in survivors && survivors[elements[i].key] == elements[i])
      && (forall k | k in survivors ::
            var e := survivors[k];
            e in nodes && e.key == k && !e.isDeleted && 1 <= e.slot <= size && elements[e.slot] == e)
    }

    ghost function Sessions(): set<Session>
      reads this
    {
      set e | e in nodes :: e.data
    }

    ghost function Slots(): (s: seq<Slot>)
      requires Shape()
      reads this, elements, nodes, Sessions()
      ensures |s| == size + 1 && s[0] == Dead
      ensures forall i | 1 <= i <= size :: s[i] == elements[i].AsSlot()
    {
      seq(size + 1, i requires 0 <= i <= size && Shape() reads this, elements, nodes, Sessions() =>
            if i == 0 then Dead else elements[i].AsSlot())
    }

    ghost predicate Valid()
      reads this, elements, nodes, Sessions()
    {
      Shape() && LiveOrder(Slots())
    }

    /** The pending timers. */
    ghost function Pending(): map<uint16, Session>
      reads `survivors
    {
      map k | k in survivors :: survivors[k].data
    }

    constructor ()
      ensures Valid() && Pending() == map[] && fresh(elements) && nodes == {}
    {
      capacity, size := 16, 0;
      elements := new HeapElement?[17];
      survivors, nodes := map[], {};
    }

    /** No pending timer is later than `time`. */
    ghost predicate NoneLaterThan(time: int)
      requires Valid()
      reads this, elements, nodes, Sessions()
    {
      forall id | id in Pending() :: Pending()[id].timestamp <= time
    }

    /** A time no pending timer is later than may always be inserted. */
    lemma LatestFits(time: int)
      requires Valid() && NoneLaterThan(time)
      ensures MayInsert(Slots(), time)
    {
      hide Slots;
      forall i | 1 <= i < |Slots()|
        ensures Slots()[i].Live? ==> Slots()[i].time <= time
      {
        assert !elements[i].isDeleted ==> Pending()[elements[i].key] == elements[i].data;
      }
      LatestMayInsert(Slots(), time);
    }

    lemma PendingInside()
      requires Shape()
      ensures forall id | id in Pending() :: Pending()[id] in Sessions()
    {
    }

    /** Nothing the heap is made of has changed. */
    twostate predicate Untouched()
      reads this, elements, nodes, Sessions()
    {
      && unchanged(this) && unchanged(elements)
      && (forall e | e in nodes :: unchanged(e))
      && (forall s | s in Sessions() :: unchanged(s))
    }

    twostate lemma UntouchedStays()
      requires Untouched()
      ensures old(Valid()) ==> Valid() && Pending() == old(Pending())
      ensures old(Valid()) ==> forall time :: old(NoneLaterThan(time)) ==> NoneLaterThan(time)
      ensures old(Valid()) ==> forall id | id in Pending() :: Pending()[id] in Sessions() && unchanged(Pending()[id])
    {
      if old(Valid()) {
        forall i | 1 <= i <= size
          ensures elements[i] != null && elements[i] in nodes && unchanged(elements[i]) && elements[i].data in Sessions()
        {
          assert elements[i] == old(elements[i]);
        }
        assert Shape();
        assert Slots() == old(Slots());
      }
    }

    /** The heap looks at nothing of a session but its timestamp. */
    twostate lemma RetriesUnseen(session: Session)
      requires old(Valid()) && unchanged(this) && unchanged(elements) && unchanged(nodes)
      requires forall s | s in Sessions() && s != session :: unchanged(s)
      requires unchanged(session`timestamp)
      ensures Valid() && Pending() == old(Pending())
      ensures forall time :: old(NoneLaterThan(time)) ==> NoneLaterThan(time)
    {
      hide Slots;
      forall i | 1 <= i <= size
        ensures Slots()[i] == old(Slots()[i])
      {
        assert elements[i].data in Sessions();
      }
      assert Slots() == old(Slots());
    }

    /** Renewing the timestamp of a session without pending timer changes nothing the heap sees. */
    twostate lemma RenewedUnseen(session: Session)
      requires old(Valid()) && unchanged(this) && unchanged(elements) && unchanged(nodes)
      requires forall s | s in Sessions() && s != session :: unchanged(s)
      requires forall id | id in Pending() :: Pending()[id] != session
      ensures Valid() && Slots() == old(Slots())
    {
      hide Slots;
      forall i | 1 <= i <= size
        ensures Slots()[i] == old(Slots()[i])
      {
        assert elements[i].data in Sessions();
        assert !elements[i].isDeleted ==> Pending()[elements[i].key] == elements[i].data;
      }
      assert Slots() == old(Slots());
    }

    /** `down`: the element at `from` sinks past dead and past earlier elements. */
    method Down(from: nat)
      requires Shape() && 1 <= from <= size && OrderedButFrom(Slots(), from)
      modifies elements, nodes`slot
      ensures Valid()
    {
      hide OrderedButFrom, LiveOrder, Slots, HeapElement.AsSlot;
      var u := from;
      while true
        invariant Shape() && 1 <= u <= size && OrderedButFrom(Slots(), u)
        decreases size - u
      {
        var t := u;
        var left, right := u * 2, u * 2 + 1;
        if left <= size && Compare(elements[t], elements[left]) > 0 {
          t := left;
        }
        if right <= size && Compare(elements[t], elements[right]) > 0 {
          t := right;
        }
        assert t == DownChoice(Slots(), u);
        if t == u {
          DownStops(Slots(), u);
          return;
        }
        DownStep(Slots(), u);
        ghost var s := Slots();
        SwapElements(u, t);
        u := t;
      }
    }

    /** `up`: the element at `from` rises while its parent is live and later. */
    method Up(from: nat, ghost s: seq<Slot>, ghost time: int) returns (ghost u: nat)
      requires Shape() && Climbing(s, time, Slots(), from)
      modifies elements, nodes`slot
      ensures Shape() && Climbing(s, time, Slots(), u) && !Climbs(Slots(), u)
    {
      hide Climbing, OrderedButTo, LiveOrder, Slots, HeapElement.AsSlot;
      var at := from;
      ClimbingAt(s, time, Slots(), at);
      while true
        invariant Shape() && 1 <= at <= size && Climbing(s, time, Slots(), at)
        decreases at
      {
        var t := at / 2;
        ClimbingAt(s, time, Slots(), at);
        assert Climbs(Slots(), at) <==> t >= 1 && Compare(elements[at], elements[t]) < 0;
        if t != 0 && Compare(elements[at], elements[t]) < 0 {
          ClimbingStep(s, time, Slots(), at);
          SwapElements(at, t);
          at := t;
        } else {
          return at;
        }
      }
    }

    /** `priority_queue_grow`: doubles the capacity until there is room. */
    method Grow(minCapacity: nat)
      requires Shape()
      modifies this`elements, this`capacity
      ensures Shape() && minCapacity <= capacity && Slots() == old(Slots())
      ensures elements == old(elements) || fresh(elements)
    {
      hide Slots, Shape, HeapElement.AsSlot;
      ShapeSize();
      if minCapacity <= capacity {
        return;
      }
      var room := if capacity == 0 then 1 else capacity;
      while minCapacity > room
        invariant room >= 1
        decreases minCapacity - room
      {
        room := room * 2;
      }
      var bigger := new HeapElement?[room + 1];
      forall i | 0 <= i <= size {
        bigger[i] := elements[i];
      }
      elements, capacity := bigger, room;
      Moved();
    }

    /** The elements in another, larger array. */
    twostate lemma Moved()
      requires old(Shape()) && size == old(size) <= capacity && elements.Length == capacity + 1
      requires nodes == old(nodes) && survivors == old(survivors)
      requires forall e | e in nodes :: unchanged(e) && unchanged(e.data)
      requires forall i | 1 <= i <= size :: elements[i] == old(elements[i])
      ensures Shape() && Slots() == old(Slots())
    {
      hide Slots, HeapElement.AsSlot;
      assert Shape();
      forall i | 0 <= i <= size
        ensures Slots()[i] == old(Slots()[i])
      {
        SlotAt(i);
        assert i > 0 ==> elements[i] in nodes && old(elements[i].AsSlot()) == elements[i].AsSlot();
      }
    }

    lemma SlotAt(i: nat)
      requires Shape() && i <= size
      ensures Slots()[i] == if i == 0 then Dead else elements[i].AsSlot()
    {
    }

    /** The new element goes behind the last slot and into the survivor table. */
    method Append(key: uint16, data: Session)
      requires Shape() && size < capacity && key !in survivors
      modifies this`size, this`survivors, this`nodes, elements
      ensures Shape() && Slots() == old(Slots()) + [Live(data.timestamp)] && size == old(size) + 1
      ensures key in survivors && survivors == old(survivors)[key := survivors[key]] && survivors[key].data == data
      ensures (forall e | e in nodes :: e in old(nodes) || fresh(e)) && Sessions() == old(Sessions()) + {data}
    {
      hide Slots, Shape, Pending, Sessions, HeapElement.AsSlot;
      ShapeSize();
      size := size + 1;
      var element := new HeapElement(key, data, size);
      elements[size] := element;
      survivors := survivors[key := element];
      nodes := nodes + {element};
      SessionsWith(element);
      OneMore(element);
    }

    lemma ShapeSize()
      requires Shape()
      ensures size <= capacity && elements.Length == capacity + 1
    {
    }

    /** One element more behind the last slot. */
    twostate lemma OneMore(new element: HeapElement)
      requires old(Shape()) && elements == old(elements) && capacity == old(capacity)
      requires size == old(size) + 1 <= capacity && elements[size] == element
      requires nodes == old(nodes) + {element} && element !in old(nodes)
      requires element.key !in old(survivors) && survivors == old(survivors)[element.key := element]
      requires !element.isDeleted && element.slot == size
      requires forall e | e in old(nodes) :: unchanged(e) && unchanged(e.data)
      requires forall i | 1 <= i < size :: elements[i] == old(elements[i])
      ensures Shape() && Slots() == old(Slots()) + [Live(element.data.timestamp)]
    {
      hide Slots;
      assert Shape();
      forall i | 0 <= i < size
        ensures Slots()[i] == old(Slots()[i])
      {
        SlotAt(i);
        assert i > 0 ==> elements[i] in old(nodes) && old(elements[i].AsSlot()) == elements[i].AsSlot();
      }
      SlotAt(size);
    }

    twostate lemma SessionsWith(new element: HeapElement)
      requires nodes == old(nodes) + {element}
      ensures Sessions() == old(Sessions()) + {element.data}
    {
    }

    twostate lemma PendingGrew(key: uint16)
      requires key in survivors && survivors == old(survivors)[key := survivors[key]]
      ensures Pending() == old(Pending())[key := survivors[key].data]
    {
    }

    twostate lemma PendingLost(key: uint16)
      requires survivors == old(survivors) - {key}
      ensures Pending() == old(Pending()) - {key}
    {
    }

    lemma PendingIs(key: uint16)
      ensures key in Pending() <==> key in survivors
    {
    }

    twostate predicate OnlyGrew()
      reads this
    {
      && (elements == old(elements) || fresh(elements))
      && (forall e | e in nodes :: e in old(nodes) || fresh(e))
    }

    /**
     `lazy_heap_add` of a key without pending timer. The timer becomes pending; and the heap keeps
     its order exactly when the timestamp may be inserted.
     */
    method Add(key: uint16, data: Session)
      requires Valid() && key !in Pending()
      modifies this, elements, nodes`slot
      ensures Shape() && (Valid() <==> MayInsert(old(Slots()), data.timestamp))
      ensures Pending() == old(Pending())[key := data]
      ensures OnlyGrew() && Sessions() == old(Sessions()) + {data}
    {
      hide LiveOrder, MayInsert, Climbing, Climbs, Slots, Shape, Pending, HeapElement.AsSlot;
      ghost var s := Slots();
      PendingIs(key);
      Grow(size + 1);
      Append(key, data);
      PendingGrew(key);
      ClimbingStart(s, data.timestamp);
      ghost var u := Up(size, s, data.timestamp);
      InsertionExact(s, data.timestamp, Slots(), u);
    }

    /** `lazy_heap_remove`: marks the element dead and forgets its key. */
    method Remove(key: uint16)
      requires Valid()
      modifies this`survivors, nodes`isDeleted
      ensures Valid() && Pending() == old(Pending()) - {key}
    {
      hide Slots, Pending;
      if key in survivors {
        var element := survivors[key];
        ghost var s := Slots();
        element.isDeleted := true;
        survivors := survivors - {key};
        assert Shape();
        assert Slots() == s[element.slot := Dead];
      }
      PendingLost(key);
    }

    /** The last element takes the place of the dead root. */
    method ReplaceRoot()
      requires Shape() && size > 0 && elements[1].isDeleted && LiveOrder(Slots())
      modifies this`size, elements, nodes`slot
      ensures Shape() && size == old(size) - 1 && (if size > 0 then OrderedButFrom(Slots(), 1) else LiveOrder(Slots()))
    {
      hide Slots, HeapElement.AsSlot;
      ghost var s := Slots();
      elements[1] := elements[size];
      elements[1].slot := 1;
      size := size - 1;
      if size > 0 {
        assert Slots() == s[1 := s[size + 1]][..size + 1];
      }
    }

    /** `do_delete`: throws dead elements away until a live one, or nothing, is at the root. */
    method DoDelete()
      requires Valid()
      modifies this`size, elements, nodes`slot
      ensures Valid() && (size > 0 ==> !elements[1].isDeleted)
    {
      hide Slots, LiveOrder, OrderedButFrom, HeapElement.AsSlot;
      while size > 0 && elements[1].isDeleted
        invariant Valid()
        decreases size
      {
        ReplaceRoot();
        if size > 0 {
          Down(1);
        }
      }
    }

    /** `lazy_heap_peek`: a pending session of least timestamp, or null exactly when none is pending. */
    method Peek() returns (earliest: Session?)
      requires Valid()
      modifies this`size, elements, nodes`slot
      ensures Valid() && Pending() == old(Pending())
      ensures earliest == null <==> Pending() == map[]
      ensures earliest != null ==>
                (exists k :: k in Pending() && Pending()[k] == earliest) &&
                forall k | k in Pending() :: earliest.timestamp <= Pending()[k].timestamp
    {
      if size == 0 {
        return null;
      }
      DoDelete();
      if size == 0 {
        return null;
      }
      earliest := elements[1].data;
      assert elements[1].key in Pending();
      forall k | k in survivors
        ensures earliest.timestamp <= survivors[k].data.timestamp
      {
        RootEarliest(Slots(), survivors[k].slot);
      }
    }

    method SwapElements(i: nat, j: nat)
      requires Shape() && 1 <= i <= size && 1 <= j <= size && i != j
      modifies elements, nodes`slot
      ensures Shape()
      ensures elements[..] == old(elements[..][i := elements[j]][j := elements[i]])
      ensures Slots() == Swap(old(Slots()), i, j)
    {
      hide HeapElement.AsSlot, Slots;
      var temp := elements[i];
      elements[i] := elements[j];
      elements[j] := temp;
      elements[i].slot, elements[j].slot := i, j;
      assert Slots() == Swap(old(Slots()), i, j);
    }
  }

  /** `heap_element_compare` over `session_comparator`. */
  function Compare(a: HeapElement, b: HeapElement): (c: int)
    reads a`isDeleted, b`isDeleted, a.data`timestamp, b.data`timestamp
    ensures c > 0 <==> Greater(a.AsSlot(), b.AsSlot())
    ensures c < 0 <==> Greater(b.AsSlot(), a.AsSlot())
  {
    if a.isDeleted && b.isDeleted then 0
    else if a.isDeleted then -1
    else if b.isDeleted then 1
    else SessionCompare(a.data, b.data)
  }

  function SessionCompare(a: Session, b: Session): int
    reads a`timestamp, b`timestamp
  {
    var interval := a.timestamp - b.timestamp;
    if interval > 0 then 1 else if interval < 0 then -1 else 0
  }
}
