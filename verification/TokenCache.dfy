/**
The verified-token cache of auth/cache.go: entries linked in both directions, a key
index, and three pointers. Every method is proved to act on the abstract value
exactly as the step of the machine in `Sieve` does.
*/
module TokenCache {
  import opened Wrappers
  import opened S = Sieve

  class Entry<V> {
    const key: string
    var claims: V
    var visited: bool
    var prev: Entry?<V>  // toward the head (newer)
    var next: Entry?<V>  // toward the tail (older)

    constructor (key: string, claims: V, next: Entry?<V>)
      ensures this.key == key && this.claims == claims && !visited && prev == null && this.next == next
    {
      this.key, this.claims, this.visited, this.prev, this.next := key, claims, false, null, next;
    }
  }

  // ----- a queue of entries, as the heap holds it -----

  ghost predicate Distinct<V>(queue: seq<Entry<V>>) {
    forall i, j :: 0 <= i < j < |queue| ==> queue[i] != queue[j]
  }

  ghost predicate Inside<V>(R: set<Entry<V>>, queue: seq<Entry<V>>) {
    forall i :: 0 <= i < |queue| ==> queue[i] in R
  }

  ghost predicate Linked<V>(R: set<Entry<V>>, queue: seq<Entry<V>>)
    requires Inside(R, queue)
    reads R
  {
    && (forall i {:trigger queue[i].prev} :: 0 <= i < |queue| ==>
          queue[i].prev == if i == 0 then null else queue[i - 1])
    && (forall i {:trigger queue[i].next} :: 0 <= i < |queue| ==>
          queue[i].next == if i == |queue| - 1 then null else queue[i + 1])
  }

  /** The index holds exactly the queue's entries, each under its own key. */
  ghost predicate Indexed<V>(queue: seq<Entry<V>>, items: map<string, Entry<V>>) {
    && (forall i :: 0 <= i < |queue| ==> queue[i].key in items && items[queue[i].key] == queue[i])
    && (forall k :: k in items ==> items[k].key == k && items[k] in queue)
  }

  /** The slots are the entries' contents, in queue order. */
  ghost predicate Shows<V>(R: set<Entry<V>>, queue: seq<Entry<V>>, slots: seq<Slot<V>>)
    requires Inside(R, queue)
    reads R
  {
    && |slots| == |queue|
    && forall i :: 0 <= i < |queue| ==> slots[i] == Slot(queue[i].key, queue[i].claims, queue[i].visited)
  }

  lemma IndexedWithout<V>(queue: seq<Entry<V>>, items: map<string, Entry<V>>, v: nat)
    requires Distinct(queue) && Indexed(queue, items) && v < |queue|
    ensures Distinct(Without(queue, v))
    ensures Indexed(Without(queue, v), items - {queue[v].key})
  {
    var after := Without(queue, v);
    forall k | k in items && k != queue[v].key
      ensures items[k] in after
    {
      var i :| 0 <= i < |queue| && queue[i] == items[k];
      assert after[if i < v then i else i - 1] == queue[i];
    }
  }

  lemma IndexedPush<V>(queue: seq<Entry<V>>, items: map<string, Entry<V>>, e: Entry<V>)
    requires Distinct(queue) && Indexed(queue, items) && e.key !in items
    ensures Distinct(Push(e, queue))
    ensures Indexed(Push(e, queue), items[e.key := e])
  {
    var after := Push(e, queue);
    assert after[0] == e;
    forall k | k in items
      ensures items[k] in after
    {
      var i :| 0 <= i < |queue| && queue[i] == items[k];
      assert after[i + 1] == queue[i];
    }
  }

  lemma {:induction false} SizeOfIndex<V>(queue: seq<Entry<V>>, items: map<string, Entry<V>>)
    requires Distinct(queue) && Indexed(queue, items)
    ensures |items| == |queue|
  {
    if queue == [] {
      assert items == map[];
    } else {
      var last := queue[|queue| - 1];
      var rest := items - {last.key};
      assert rest.Keys == items.Keys - {last.key};
      assert forall k :: k in rest ==> rest[k] in queue[..|queue| - 1];
      SizeOfIndex(queue[..|queue| - 1], rest);
    }
  }

  /** Every entry but the one at `v` points past it. */
  ghost predicate Unlinked<V>(R: set<Entry<V>>, was: seq<Entry<V>>, v: nat)
    requires v < |was| && Inside(R, was)
    reads R
  {
    && (forall i {:trigger was[i].prev} :: 0 <= i < |was| && i != v ==>
          var j := if i == v + 1 then v - 1 else i - 1;
          was[i].prev == if j < 0 then null else was[j])
    && (forall i {:trigger was[i].next} :: 0 <= i < |was| && i != v ==>
          var j := if i == v - 1 then v + 1 else i + 1;
          was[i].next == if j >= |was| then null else was[j])
  }

  lemma LinkedWithout<V>(R: set<Entry<V>>, was: seq<Entry<V>>, v: nat)
    requires Inside(R, was) && v < |was| && Unlinked(R, was, v)
    ensures Inside(R, Without(was, v)) && Linked(R, Without(was, v))
  {
  }

  lemma ShowsWithout<V>(R: set<Entry<V>>, queue: seq<Entry<V>>, slots: seq<Slot<V>>, v: nat)
    requires Inside(R, queue) && Shows(R, queue, slots) && v < |queue|
    ensures Inside(R, Without(queue, v)) && Shows(R, Without(queue, v), Without(slots, v))
  {
  }

  /** The three pointers stand at the ends and at position `at` of the queue. */
  ghost predicate EndsOf<V>(q: seq<Entry<V>>, head: Entry?<V>, tail: Entry?<V>, hand: Entry?<V>, at: Option<nat>) {
    && head == (if q == [] then null else q[0])
    && tail == (if q == [] then null else q[|q| - 1])
    && (at.None? ==> hand == null)
    && (at.Some? ==> at.value < |q| && hand == q[at.value])
  }

  lemma EndsWithout<V>(q: seq<Entry<V>>, v: nat, head: Entry?<V>, tail: Entry?<V>, hand: Entry?<V>, at: Option<nat>)
    requires v < |q| && EndsOf(q, head, tail, hand, at) && (at.Some? ==> at.value < v)
    ensures var h := if v > 0 then q[0] else if |q| > 1 then q[1] else null;
            var t := if v < |q| - 1 then q[|q| - 1] else if v > 0 then q[v - 1] else null;
            EndsOf(Without(q, v), h, t, hand, at)
  {
  }

  lemma EndsPush<V>(e: Entry<V>, q: seq<Entry<V>>, head: Entry?<V>, tail: Entry?<V>, hand: Entry?<V>, at: Option<nat>)
    requires EndsOf(q, head, tail, hand, at)
    ensures var t := if q == [] then e else q[|q| - 1];
            EndsOf(Push(e, q), e, t, hand, if at.Some? then Some(at.value + 1) else None)
  {
  }

  /** A well-formed queue: linked both ways, indexed by key, showing `slots`. */
  ghost predicate Queue<V>(R: set<Entry<V>>, q: seq<Entry<V>>, items: map<string, Entry<V>>, slots: seq<Slot<V>>)
    reads R
  {
    Inside(R, q) && Distinct(q) && Linked(R, q) && Indexed(q, items) && Shows(R, q, slots)
  }

  lemma QueueWithout<V>(R: set<Entry<V>>, q: seq<Entry<V>>, items: map<string, Entry<V>>, slots: seq<Slot<V>>, v: nat)
    requires Inside(R, q) && Distinct(q) && Indexed(q, items) && Shows(R, q, slots)
    requires v < |q| && Unlinked(R, q, v)
    ensures Queue(R, Without(q, v), items - {q[v].key}, Without(slots, v))
  {
    IndexedWithout(q, items, v);
    LinkedWithout(R, q, v);
    ShowsWithout(R, q, slots, v);
  }

  lemma NoneCleared<V>(slots: seq<Slot<V>>, start: nat)
    requires start < |slots|
    ensures Cleared(slots, start, 0) == slots
  {
  }

  /** The sweep goes on exactly while the entry under its cursor is visited. */
  lemma GoesOn<V>(R: set<Entry<V>>, q: seq<Entry<V>>, items: map<string, Entry<V>>, slots: seq<Slot<V>>, start: nat,
                  d: nat)
    requires start < |slots| == |q| && d <= |q| && Queue(R, q, items, Cleared(slots, start, d))
    ensures if q[Position(|q|, start, d)].visited
            then d < |q| && SweepFrom(slots, start, d) == SweepFrom(slots, start, d + 1)
            else SweepFrom(slots, start, d) == d
  {
    SweepStep(slots, start, d);
    assert Cleared(slots, start, d)[Position(|q|, start, d)].visited == q[Position(|q|, start, d)].visited;
  }

  /** What the eviction leaves, by where the sweep stopped. */
  lemma EvictedAs<V>(m: Machine<V>, start: nat, stop: nat)
    requires m.slots != [] && (m.hand.Some? ==> m.hand.value < |m.slots|)
    requires start == Start(m) && stop == SweepFrom(m.slots, start, 0)
    ensures var v := Position(|m.slots|, start, stop);
            S.Evict(m) == Machine(Without(Cleared(m.slots, start, stop), v), if v == 0 then None else Some(v - 1))
  {
  }

  /** Under the cursor, the swept slots show the bit that decides whether the sweep goes on. */
  lemma SweepStep<V>(slots: seq<Slot<V>>, start: nat, d: nat)
    requires start < |slots| && d <= |slots|
    ensures if Cleared(slots, start, d)[Position(|slots|, start, d)].visited
            then d < |slots| && SweepFrom(slots, start, d) == SweepFrom(slots, start, d + 1)
            else SweepFrom(slots, start, d) == d
  {
  }

  class Cache<V> {
    const capacity: int
    var items: map<string, Entry<V>>
    var head: Entry?<V>
    var tail: Entry?<V>
    var hand: Entry?<V>
    ghost var repr: set<Entry<V>>
    ghost var queue: seq<Entry<V>>
    ghost var abs: Machine<V>  // the abstract cache this one stands for

    ghost predicate Ends()
      reads this
    {
      EndsOf(queue, head, tail, hand, abs.hand)
    }

    ghost predicate Valid()
      reads this, repr
    {
      Queue(repr, queue, items, abs.slots) && Ends()
    }

    constructor (capacity: int)
      ensures Valid() && this.capacity == capacity && abs == Machine([], None) && queue == [] && repr == {}
    {
      this.capacity := capacity;
      items, head, tail, hand := map[], null, null, null;
      repr, queue, abs := {}, [], Machine([], None);
    }

    /** Where an indexed key sits in the queue, as the abstract search finds it. */
    lemma FindIsIndexed(key: string)
      requires Valid()
      ensures key in items <==> Find(abs.slots, key) < |queue|
      ensures key in items ==> queue[Find(abs.slots, key)] == items[key]
    {
      if key in items {
        var i :| 0 <= i < |queue| && queue[i] == items[key];
        assert abs.slots[i].key == key;
      }
    }

    /** Writes one entry's contents. */
    static method Write(e: Entry<V>, claims: V, visited: bool, ghost R: set<Entry<V>>, ghost q: seq<Entry<V>>,
                        ghost items: map<string, Entry<V>>, ghost slots: seq<Slot<V>>, ghost p: nat)
      requires Queue(R, q, items, slots)
      requires p < |q| && e == q[p]
      modifies e`claims, e`visited
      ensures Queue(R, q, items, slots[p := Slot(e.key, claims, visited)])
    {
      e.claims := claims;
      e.visited := visited;
    }

    method Get(key: string) returns (r: Option<V>)
      requires Valid()
      modifies this`abs, repr
      ensures Valid() && repr == old(repr)
      ensures (abs, r) == S.Get(old(abs), key)
    {
      FindIsIndexed(key);
      if key !in items {
        return None;
      }
      var e := items[key];
      r := Some(e.claims);
      ghost var slots, p := abs.slots, Find(abs.slots, key);
      abs := S.Get(abs, key).0;
      Write(e, e.claims, true, repr, queue, items, slots, p);
    }

    /** Points both neighbours, or the ends of the queue, past the entry at position `v`. */
    method Unlink(e: Entry<V>, ghost R: set<Entry<V>>, ghost q: seq<Entry<V>>, ghost slots: seq<Slot<V>>, ghost v: nat)
      requires Inside(R, q) && Distinct(q) && Linked(R, q) && Shows(R, q, slots)
      requires v < |q| && q[v] == e && head == q[0] && tail == q[|q| - 1]
      modifies this`head, this`tail, R
      ensures Unlinked(R, q, v) && Shows(R, q, slots)
      ensures head == if v > 0 then q[0] else if |q| > 1 then q[1] else null
      ensures tail == if v < |q| - 1 then q[|q| - 1] else if v > 0 then q[v - 1] else null
    {
      if e.prev != null {
        e.prev.next := e.next;
      } else {
        head := e.next;
      }
      if e.next != null {
        e.next.prev := e.prev;
      } else {
        tail := e.prev;
      }
    }

    /** Takes the entry at position `v` out of the linked queue. */
    method TakeOut(e: Entry<V>, ghost R: set<Entry<V>>, ghost q: seq<Entry<V>>, ghost was: map<string, Entry<V>>,
                   ghost slots: seq<Slot<V>>, ghost v: nat)
      requires Queue(R, q, was, slots)
      requires v < |q| && q[v] == e && head == q[0] && tail == q[|q| - 1]
      modifies this`head, this`tail, R
      ensures Queue(R, Without(q, v), was - {e.key}, Without(slots, v))
      ensures head == if v > 0 then q[0] else if |q| > 1 then q[1] else null
      ensures tail == if v < |q| - 1 then q[|q| - 1] else if v > 0 then q[v - 1] else null
    {
      Unlink(e, R, q, slots, v);
      QueueWithout(R, q, was, slots, v);
    }

    /** Updates the index and the ghost view; the linked entries are untouched. */
    method Record(items: map<string, Entry<V>>, ghost queue: seq<Entry<V>>, ghost abs: Machine<V>,
                  ghost repr: set<Entry<V>>)
      requires Queue(repr, queue, items, abs.slots) && EndsOf(queue, head, tail, hand, abs.hand)
      modifies this`items, this`queue, this`abs, this`repr
      ensures this.queue == queue && this.abs == abs && this.repr == repr && Valid()
    {
      this.items, this.queue, this.abs, this.repr := items, queue, abs, repr;
    }

    /** Drops the entry at position `v`; the hand must sit nearer the head, as `Evict` leaves it. */
    method Remove(e: Entry<V>, ghost v: nat)
      requires Valid()
      requires v < |queue| && queue[v] == e
      requires abs.hand.Some? ==> abs.hand.value < v
      modifies this, repr
      ensures Valid()
      ensures repr == old(repr) && queue == Without(old(queue), v)
      ensures abs == Machine(Without(old(abs).slots, v), old(abs).hand)
    {
      ghost var q, was, slots, m := queue, items, abs.slots, Machine(Without(abs.slots, v), abs.hand);
      EndsWithout(q, v, head, tail, hand, abs.hand);
      TakeOut(e, repr, q, was, slots, v);
      Record(items - {e.key}, Without(q, v), m, repr);
    }

    /** One turn of the eviction loop: clears the bit of a visited entry and moves toward the head. */
    static method Pass(obj: Entry<V>, tail: Entry<V>, ghost R: set<Entry<V>>, ghost q: seq<Entry<V>>,
                       ghost items: map<string, Entry<V>>, ghost slots: seq<Slot<V>>, ghost start: nat, ghost d: nat)
      returns (next: Entry<V>)
      requires start < |q| == |slots| && d < |q| && obj == q[Position(|q|, start, d)] && tail == q[|q| - 1]
      requires Queue(R, q, items, Cleared(slots, start, d))
      modifies obj`claims, obj`visited
      ensures Queue(R, q, items, Cleared(slots, start, d + 1))
      ensures next == q[Position(|q|, start, d + 1)]
    {
      ghost var p := Position(|q|, start, d);
      ClearedStep(slots, start, d);
      StepBack(|q|, start, d);
      next := if obj.prev == null then tail else obj.prev;
      assert next == if p == 0 then tail else q[p - 1];
      Write(obj, obj.claims, false, R, q, items, Cleared(slots, start, d), p);
    }

    /** The eviction loop: clears the bits of the visited entries it passes and stops at the victim. */
    static method Sweep(from: Entry<V>, tail: Entry<V>, ghost R: set<Entry<V>>, ghost q: seq<Entry<V>>,
                        ghost items: map<string, Entry<V>>, ghost slots: seq<Slot<V>>, ghost start: nat,
                        ghost stop: nat)
      returns (obj: Entry<V>)
      requires Queue(R, q, items, slots)
      requires start < |q| && from == q[start] && tail == q[|q| - 1] && stop == SweepFrom(slots, start, 0)
      modifies R`claims, R`visited
      ensures Queue(R, q, items, Cleared(slots, start, stop))
      ensures obj == q[Position(|q|, start, stop)]
    {
      obj := from;
      ghost var d := 0;
      NoneCleared(slots, start);
      while obj.visited
        invariant d <= |q| && obj == q[Position(|q|, start, d)]
        invariant Queue(R, q, items, Cleared(slots, start, d))
        invariant SweepFrom(slots, start, d) == stop
        decreases |q| - d
      {
        GoesOn(R, q, items, slots, start, d);
        obj := Pass(obj, tail, R, q, items, slots, start, d);
        d := d + 1;
      }
      GoesOn(R, q, items, slots, start, d);
    }

    method Evict()
      requires Valid()
      modifies this, repr
      ensures Valid() && repr == old(repr)
      ensures abs == S.Evict(old(abs))
    {
      var obj := if hand == null then tail else hand;
      if obj != null {
        EvictFrom(obj, Start(abs));
      }
    }

    method EvictFrom(from: Entry<V>, ghost start: nat)
      requires Valid() && queue != [] && start == Start(abs) && from == queue[start]
      modifies this, repr
      ensures Valid() && repr == old(repr)
      ensures abs == S.Evict(old(abs))
    {
      ghost var stop := SweepFrom(abs.slots, start, 0);
      ghost var v, slots := Position(|abs.slots|, start, stop), Cleared(abs.slots, start, stop);
      EvictedAs(abs, start, stop);
      ghost var evicted := Machine(Without(slots, v), if v == 0 then None else Some(v - 1));
      assert evicted == S.Evict(abs);
      var obj := Sweep(from, tail, repr, queue, items, abs.slots, start, stop);
      Detach(obj, v, slots);
      assert abs == evicted;
    }

    /** Leaves the hand on the victim's newer neighbour and drops the victim. */
    method Detach(obj: Entry<V>, ghost v: nat, ghost slots: seq<Slot<V>>)
      requires Queue(repr, queue, items, slots) && Ends()
      requires v < |queue| && obj == queue[v]
      modifies this, repr
      ensures Valid() && repr == old(repr)
      ensures abs == Machine(Without(slots, v), if v == 0 then None else Some(v - 1))
    {
      MoveHand(obj, v, slots);
      Remove(obj, v);
    }

    method MoveHand(obj: Entry<V>, ghost v: nat, ghost slots: seq<Slot<V>>)
      requires Queue(repr, queue, items, slots) && Ends()
      requires v < |queue| && obj == queue[v]
      modifies this`hand, this`abs
      ensures Valid()
      ensures abs == Machine(slots, if v == 0 then None else Some(v - 1))
    {
      hand := obj.prev;
      abs := Machine(slots, if v == 0 then None else Some(v - 1));
    }

    method PushFront(key: string, claims: V)
      requires Valid() && key !in items
      modifies this, repr
      ensures Valid() && fresh(repr - old(repr))
      ensures abs == Insert(old(abs), key, claims)
    {
      var e := new Entry(key, claims, head);
      Enlist(e);
    }

    /** Links a new entry in front of the head. */
    method Enlist(e: Entry<V>)
      requires Valid() && e.key !in items && e !in repr && e.prev == null && e.next == head
      modifies this, repr, e
      ensures Valid() && repr == old(repr) + {e}
      ensures abs == Machine(Push(Slot(e.key, old(e.claims), old(e.visited)), old(abs).slots),
                             if old(abs).hand.Some? then Some(old(abs).hand.value + 1) else None)
    {
      ghost var q, was, slots, R := queue, items, abs.slots, repr + {e};
      ghost var hand' := if abs.hand.Some? then Some(abs.hand.value + 1) else None;
      ghost var m := Machine(Push(Slot(e.key, e.claims, e.visited), slots), hand');
      EndsPush(e, q, head, tail, hand, abs.hand);
      PutIn(e, R, q, was, slots);
      Record(items[e.key := e], Push(e, q), m, R);
    }

    /** Puts a new entry in front of the linked queue. */
    method PutIn(e: Entry<V>, ghost R: set<Entry<V>>, ghost q: seq<Entry<V>>, ghost was: map<string, Entry<V>>,
                 ghost slots: seq<Slot<V>>)
      requires Queue(R, q, was, slots) && e in R && e.key !in was && e.prev == null && e.next == head
      requires head == (if q == [] then null else q[0]) && tail == (if q == [] then null else q[|q| - 1])
      modifies this`head, this`tail, R
      ensures Queue(R, Push(e, q), was[e.key := e], Push(Slot(e.key, old(e.claims), old(e.visited)), slots))
      ensures head == e && tail == if q == [] then e else q[|q| - 1]
    {
      IndexedPush(q, was, e);
      LinkFront(e, R, q, slots);
    }

    method LinkFront(e: Entry<V>, ghost R: set<Entry<V>>, ghost q: seq<Entry<V>>, ghost slots: seq<Slot<V>>)
      requires Inside(R, q) && e in R && Distinct(Push(e, q)) && Linked(R, q) && Shows(R, q, slots)
      requires e.prev == null && e.next == head
      requires head == (if q == [] then null else q[0]) && tail == (if q == [] then null else q[|q| - 1])
      modifies this`head, this`tail, R
      ensures Inside(R, Push(e, q)) && Linked(R, Push(e, q))
      ensures Shows(R, Push(e, q), Push(Slot(e.key, old(e.claims), old(e.visited)), slots))
      ensures head == e && tail == if q == [] then e else q[|q| - 1]
    {
      assert Push(e, q)[0] == e;
      assert forall i :: 0 <= i < |q| ==> Push(e, q)[i + 1] == q[i];
      if head != null {
        head.prev := e;
      }
      head := e;
      if tail == null {
        tail := e;
      }
    }

    /** A key that is already cached gets the new claims and its bit set. */
    method Refresh(key: string, claims: V)
      requires Valid() && key in items
      modifies this`abs, repr
      ensures Valid() && repr == old(repr)
      ensures abs == old(abs).(slots := old(abs).slots[Find(old(abs).slots, key) := Slot(key, claims, true)])
    {
      FindIsIndexed(key);
      ghost var slots, p := abs.slots, Find(abs.slots, key);
      abs := abs.(slots := slots[p := Slot(key, claims, true)]);
      Write(items[key], claims, true, repr, queue, items, slots, p);
    }

    method Put(key: string, claims: V)
      requires Valid() && WellFormed(abs, capacity)
      modifies this, repr
      ensures Valid()
      ensures abs == S.Put(old(abs), capacity, key, claims)
      ensures fresh(repr - old(repr))
    {
      if capacity <= 0 {
        return;
      }
      FindIsIndexed(key);
      SizeOfIndex(queue, items);
      if key in items {
        Refresh(key, claims);
        return;
      }
      if |items| >= capacity {
        MakeRoom(key);
      }
      PushFront(key, claims);
    }

    method MakeRoom(ghost key: string)
      requires Valid() && WellFormed(abs, capacity) && key !in items
      modifies this, repr
      ensures Valid() && repr == old(repr) && key !in items
      ensures abs == S.Evict(old(abs))
    {
      EvictWellFormed(abs, capacity);
      FindIsIndexed(key);
      assert !Has(abs, key);
      Evict();
      FindIsIndexed(key);
    }

    method Len() returns (n: nat)
      requires Valid()
      ensures n == |abs.slots|
    {
      SizeOfIndex(queue, items);
      n := |items|;
    }
  }

  /** Every run of gets and puts on a new cache ends in the state the abstract run ends in. */
  method Replay<V>(capacity: int, ops: seq<Op<V>>) returns (c: Cache<V>)
    ensures c.Valid() && c.abs == Run(ops, capacity)
    ensures WellFormed(c.abs, capacity)
  {
    c := new Cache(capacity);
    for n := 0 to |ops|
      invariant c.Valid() && c.capacity == capacity && fresh(c) && fresh(c.repr)
      invariant c.abs == Run(ops[..n], capacity)
    {
      assert ops[..n + 1][..n] == ops[..n];
      match ops[n]
      case GetOp(key) =>
        var _ := c.Get(key);
      case PutOp(key, claims) =>
        c.Put(key, claims);
    }
    assert ops[..|ops|] == ops;
  }
}
