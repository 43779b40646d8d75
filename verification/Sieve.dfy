/**
SIEVE eviction (auth/cache.go) over an abstract cache: the queue as a sequence,
newest entry first, with the position of the eviction hand.
*/
module Sieve {
  import opened Wrappers

  datatype Slot<V> = Slot(key: string, claims: V, visited: bool)

  datatype Machine<V> = Machine(slots: seq<Slot<V>>, hand: Option<nat>)

  ghost predicate DistinctKeys<V>(slots: seq<Slot<V>>) {
    forall i, j :: 0 <= i < j < |slots| ==> slots[i].key != slots[j].key
  }

  /** What every reachable cache of this capacity satisfies. */
  ghost predicate WellFormed<V>(m: Machine<V>, capacity: int) {
    && DistinctKeys(m.slots)
    && (m.hand.Some? ==> m.hand.value < |m.slots|)
    && |m.slots| <= (if capacity <= 0 then 0 else capacity)
  }

  predicate Has<V>(m: Machine<V>, key: string) {
    exists i :: 0 <= i < |m.slots| && m.slots[i].key == key
  }

  /** The position of a key, or the queue's length when it is absent. */
  function Find<V>(slots: seq<Slot<V>>, key: string): (i: nat)
    ensures i <= |slots|
    ensures i < |slots| ==> slots[i].key == key
    ensures forall j :: 0 <= j < i ==> slots[j].key != key
  {
    FindFrom(slots, key, 0)
  }

  function FindFrom<V>(slots: seq<Slot<V>>, key: string, from: nat): (i: nat)
    requires from <= |slots|
    ensures from <= i <= |slots|
    ensures i < |slots| ==> slots[i].key == key
    ensures forall j :: from <= j < i ==> slots[j].key != key
    decreases |slots| - from
  {
    if from == |slots| || slots[from].key == key then from else FindFrom(slots, key, from + 1)
  }

  // ----- eviction -----

  /** Where the sweep begins: at the hand, or at the tail when there is none. */
  function Start<V>(m: Machine<V>): (i: nat)
    requires m.slots != []
    requires m.hand.Some? ==> m.hand.value < |m.slots|
    ensures i < |m.slots|
  {
    if m.hand.Some? then m.hand.value else |m.slots| - 1
  }

  /** How many steps toward the head, wrapping at the tail, lead from `start` to `i`. */
  function Distance(n: nat, start: nat, i: nat): (d: nat)
    requires start < n && i < n
    ensures d < n
  {
    if i <= start then start - i else n + start - i
  }

  /** The entry met after `d` steps from `start`. */
  function Position(n: nat, start: nat, d: nat): (i: nat)
    requires start < n && d <= n
    ensures i < n
    ensures d < n ==> Distance(n, start, i) == d
    ensures d == n ==> i == start
  {
    if d <= start then start - d else n + start - d
  }

  lemma StepBack(n: nat, start: nat, d: nat)
    requires start < n && d < n
    ensures var p := Position(n, start, d);
            Position(n, start, d + 1) == if p == 0 then n - 1 else p - 1
  {
  }

  /** The first distance, from `d` on, whose entry is unvisited; the queue's length if there is none. */
  function SweepFrom<V>(slots: seq<Slot<V>>, start: nat, d: nat): (stop: nat)
    requires start < |slots| && d <= |slots|
    ensures d <= stop <= |slots|
    decreases |slots| - d
  {
    if d == |slots| || !slots[Position(|slots|, start, d)].visited then d
    else SweepFrom(slots, start, d + 1)
  }

  lemma {:induction false} SweepStopsAtUnvisited<V>(slots: seq<Slot<V>>, start: nat, d: nat)
    requires start < |slots| && d <= |slots|
    ensures var stop := SweepFrom(slots, start, d);
            && (forall i :: 0 <= i < |slots| && d <= Distance(|slots|, start, i) < stop ==> slots[i].visited)
            && (stop < |slots| ==> !slots[Position(|slots|, start, stop)].visited)
    decreases |slots| - d
  {
    if d < |slots| && slots[Position(|slots|, start, d)].visited {
      SweepStopsAtUnvisited(slots, start, d + 1);
      assert forall i :: 0 <= i < |slots| && Distance(|slots|, start, i) == d ==> i == Position(|slots|, start, d);
    }
  }

  /** The queue with the visited bits at distance less than `d` cleared. */
  function Cleared<V>(slots: seq<Slot<V>>, start: nat, d: nat): (r: seq<Slot<V>>)
    requires start < |slots|
    ensures |r| == |slots|
  {
    seq(|slots|, i requires 0 <= i < |slots| =>
      if Distance(|slots|, start, i) < d then slots[i].(visited := false) else slots[i])
  }

  /** Passing one visited entry clears that entry's bit and no other. */
  lemma ClearedStep<V>(slots: seq<Slot<V>>, start: nat, d: nat)
    requires start < |slots| && d < |slots|
    ensures var p := Position(|slots|, start, d);
            var before, after := Cleared(slots, start, d), Cleared(slots, start, d + 1);
            && before[p] == slots[p] && after == before[p := slots[p].(visited := false)]
  {
    var p := Position(|slots|, start, d);
    assert forall i :: 0 <= i < |slots| && Distance(|slots|, start, i) == d ==> i == p;
  }

  function Without<T>(s: seq<T>, i: nat): seq<T>
    requires i < |s|
  {
    seq(|s| - 1, j requires 0 <= j < |s| - 1 => s[Origin(i, j)])
  }

  function Victim<V>(m: Machine<V>): (v: nat)
    requires m.slots != []
    requires m.hand.Some? ==> m.hand.value < |m.slots|
    ensures v < |m.slots|
  {
    Position(|m.slots|, Start(m), SweepFrom(m.slots, Start(m), 0))
  }

  function Evict<V>(m: Machine<V>): Machine<V>
    requires m.hand.Some? ==> m.hand.value < |m.slots|
  {
    if m.slots == [] then m
    else
      var stop := SweepFrom(m.slots, Start(m), 0);
      var v := Victim(m);
      Machine(Without(Cleared(m.slots, Start(m), stop), v), if v == 0 then None else Some(v - 1))
  }

  // ----- the two operations -----

  function Get<V>(m: Machine<V>, key: string): (Machine<V>, Option<V>) {
    var i := Find(m.slots, key);
    if i == |m.slots| then (m, None)
    else (m.(slots := m.slots[i := m.slots[i].(visited := true)]), Some(m.slots[i].claims))
  }

  function Push<T>(x: T, s: seq<T>): seq<T> {
    seq(|s| + 1, i requires 0 <= i < |s| + 1 => if i == 0 then x else s[i - 1])
  }

  function Insert<V>(m: Machine<V>, key: string, claims: V): Machine<V> {
    Machine(Push(Slot(key, claims, false), m.slots), if m.hand.Some? then Some(m.hand.value + 1) else None)
  }

  function Put<V>(m: Machine<V>, capacity: int, key: string, claims: V): Machine<V>
    requires m.hand.Some? ==> m.hand.value < |m.slots|
  {
    if capacity <= 0 then m
    else
      var i := Find(m.slots, key);
      if i < |m.slots| then m.(slots := m.slots[i := Slot(key, claims, true)])
      else if |m.slots| >= capacity then Insert(Evict(m), key, claims)
      else Insert(m, key, claims)
  }

  // ----- what eviction does -----

  /** Whether the sweep passes entry `i` on its way to the victim. */
  predicate Met<V>(m: Machine<V>, i: nat)
    requires m.hand.Some? ==> m.hand.value < |m.slots|
    requires i < |m.slots|
  {
    var n, s, v := |m.slots|, Start(m), Victim(m);
    m.slots[v].visited || Distance(n, s, i) < Distance(n, s, v)
  }

  /**
  SIEVE's choice, stated without the sweep: the victim is the first unvisited entry met
  from the start, or the start itself when every entry is visited; all entries met on the way were visited.
  */
  lemma VictimIsFirstUnvisited<V>(m: Machine<V>)
    requires m.slots != []
    requires m.hand.Some? ==> m.hand.value < |m.slots|
    ensures var n, s, v := |m.slots|, Start(m), Victim(m);
            if exists i :: 0 <= i < n && !m.slots[i].visited
            then !m.slots[v].visited &&
                 forall i :: 0 <= i < n && !m.slots[i].visited ==> Distance(n, s, v) <= Distance(n, s, i)
            else v == s
    ensures forall i :: 0 <= i < |m.slots| && Met(m, i) ==> m.slots[i].visited
  {
    var n, s := |m.slots|, Start(m);
    var stop := SweepFrom(m.slots, s, 0);
    SweepStopsAtUnvisited(m.slots, s, 0);
    if stop == n {
      assert forall i :: 0 <= i < n ==> 0 <= Distance(n, s, i) < stop;
    }
  }

  /** A surviving entry keeps its key and claims, and loses its bit exactly when the sweep met it. */
  lemma EvictKeepsSurvivor<V>(m: Machine<V>, i: nat)
    requires m.hand.Some? ==> m.hand.value < |m.slots|
    requires i < |m.slots| && i != Victim(m)
    ensures |Evict(m).slots| == |m.slots| - 1
    ensures Evict(m).slots[if i < Victim(m) then i else i - 1] ==
            Slot(m.slots[i].key, m.slots[i].claims, m.slots[i].visited && !Met(m, i))
  {
    var n, s := |m.slots|, Start(m);
    var stop := SweepFrom(m.slots, s, 0);
    SweepStopsAtUnvisited(m.slots, s, 0);
    var c := Cleared(m.slots, s, stop);
    assert Without(c, Victim(m))[if i < Victim(m) then i else i - 1] == c[i];
    if stop == n {
      assert Distance(n, s, Victim(m)) < stop;
    }
  }

  /** Position `j` of the queue after an eviction held position `Origin(v, j)` before it. */
  function Origin(v: nat, j: nat): nat {
    if j < v then j else j + 1
  }

  lemma EvictOrigin<V>(m: Machine<V>, j: nat)
    requires m.hand.Some? ==> m.hand.value < |m.slots|
    requires j < |m.slots| - 1
    ensures |Evict(m).slots| == |m.slots| - 1
    ensures Evict(m).slots[j].key == m.slots[Origin(Victim(m), j)].key
    ensures Evict(m).slots[j].claims == m.slots[Origin(Victim(m), j)].claims
  {
    EvictKeepsSurvivor(m, Origin(Victim(m), j));
  }

  lemma EvictWellFormed<V>(m: Machine<V>, capacity: int)
    requires WellFormed(m, capacity)
    ensures WellFormed(Evict(m), capacity)
    ensures m.slots != [] ==> |Evict(m).slots| == |m.slots| - 1
    ensures forall k :: Has(Evict(m), k) ==> Has(m, k)
  {
    if m.slots != [] {
      var v, r := Victim(m), Evict(m);
      assert |r.slots| == |m.slots| - 1;
      forall j | 0 <= j < |r.slots|
        ensures r.slots[j].key == m.slots[Origin(v, j)].key
      {
        EvictOrigin(m, j);
      }
    }
  }

  lemma GetWellFormed<V>(m: Machine<V>, capacity: int, key: string)
    requires WellFormed(m, capacity)
    ensures WellFormed(Get(m, key).0, capacity)
    ensures Get(m, key).1.Some? <==> Has(m, key)
  {
  }

  lemma PutWellFormed<V>(m: Machine<V>, capacity: int, key: string, claims: V)
    requires WellFormed(m, capacity)
    ensures WellFormed(Put(m, capacity, key, claims), capacity)
    ensures capacity > 0 ==> Get(Put(m, capacity, key, claims), key).1 == Some(claims)
  {
    if capacity > 0 && Find(m.slots, key) == |m.slots| {
      assert !Has(m, key);
      EvictWellFormed(m, capacity);
      var e := if |m.slots| >= capacity then Evict(m) else m;
      assert !Has(e, key);
      InsertKeepsOthers(e, key, claims, key);
    } else if capacity > 0 {
      var i := Find(m.slots, key);
      var after := m.slots[i := Slot(key, claims, true)];
      assert after[i].key == key;
      assert Find(after, key) == i;
    }
  }

  /** Every entry after a put is the one put, or was cached before with the same claims. */
  lemma PutOrigin<V>(m: Machine<V>, capacity: int, key: string, claims: V, i: nat)
    requires WellFormed(m, capacity)
    requires i < |Put(m, capacity, key, claims).slots|
    ensures var slot := Put(m, capacity, key, claims).slots[i];
            || (slot.key == key && slot.claims == claims)
            || (exists j :: 0 <= j < |m.slots| && m.slots[j].key == slot.key && m.slots[j].claims == slot.claims)
  {
    if capacity > 0 && Find(m.slots, key) == |m.slots| && |m.slots| >= capacity && i > 0 {
      EvictOrigin(m, i - 1);
    }
  }

  // ----- what a lookup and an insertion leave -----

  /** A lookup sets the bit of its key's entry; keys, claims, order, hand and the other bits stay. */
  lemma GetMarks<V>(m: Machine<V>, key: string)
    requires DistinctKeys(m.slots)
    ensures var r := Get(m, key).0;
            && r.hand == m.hand && |r.slots| == |m.slots|
            && forall i :: 0 <= i < |m.slots| ==>
                 r.slots[i] == Slot(m.slots[i].key, m.slots[i].claims, m.slots[i].visited || m.slots[i].key == key)
  {
  }

  /** Putting a cached key replaces its claims and sets its bit, and changes nothing else. */
  lemma PutMarks<V>(m: Machine<V>, capacity: int, key: string, claims: V)
    requires WellFormed(m, capacity) && Has(m, key)
    ensures var r := Put(m, capacity, key, claims);
            && r.hand == m.hand && |r.slots| == |m.slots|
            && forall i :: 0 <= i < |m.slots| ==>
                 r.slots[i] == if m.slots[i].key == key then Slot(key, claims, true) else m.slots[i]
  {
  }

  /** The cache an insertion goes into: at capacity, one entry has been evicted. */
  function Roomy<V>(m: Machine<V>, capacity: int): Machine<V>
    requires m.hand.Some? ==> m.hand.value < |m.slots|
  {
    if |m.slots| >= capacity then Evict(m) else m
  }

  /** A new entry starts unvisited at the head; the others move back by one, the hand with its entry. */
  lemma PutInserts<V>(m: Machine<V>, capacity: int, key: string, claims: V)
    requires WellFormed(m, capacity) && capacity > 0 && !Has(m, key)
    ensures var e, r := Roomy(m, capacity), Put(m, capacity, key, claims);
            && |r.slots| == |e.slots| + 1 && r.slots[0] == Slot(key, claims, false)
            && (forall i :: 0 <= i < |e.slots| ==> r.slots[i + 1] == e.slots[i])
            && (r.hand.Some? <==> e.hand.Some?) && (e.hand.Some? ==> r.hand.value == e.hand.value + 1)
  {
    assert Find(m.slots, key) == |m.slots|;
  }

  /** The next sweep begins at the entry that followed the victim toward the head, or at the tail after the head. */
  lemma SweepResumes<V>(m: Machine<V>, capacity: int)
    requires WellFormed(m, capacity) && |m.slots| > 1
    ensures var r, v := Evict(m), Victim(m);
            && WellFormed(r, capacity) && r.slots != []
            && r.slots[Start(r)].key == m.slots[if v == 0 then |m.slots| - 1 else v - 1].key
  {
    EvictWellFormed(m, capacity);
    var r := Evict(m);
    EvictOrigin(m, Start(r));
  }

  /** A key is not evicted while its entry is visited and some other entry is not. */
  lemma VisitedIsSpared<V>(m: Machine<V>, capacity: int, i: nat, j: nat)
    requires WellFormed(m, capacity) && i < |m.slots| && j < |m.slots|
    requires m.slots[i].visited && !m.slots[j].visited
    ensures Has(Evict(m), m.slots[i].key)
  {
    VictimIsFirstUnvisited(m);
    EvictKeepsSurvivor(m, i);
  }

  /** So looking a key up saves it from the next eviction, if another entry is unvisited. */
  lemma GetSpares<V>(m: Machine<V>, capacity: int, key: string, j: nat)
    requires WellFormed(m, capacity) && Has(m, key)
    requires j < |m.slots| && m.slots[j].key != key && !m.slots[j].visited
    ensures Has(Evict(Get(m, key).0), key)
  {
    GetMarks(m, key);
    GetWellFormed(m, capacity, key);
    var i :| 0 <= i < |m.slots| && m.slots[i].key == key;
    VisitedIsSpared(Get(m, key).0, capacity, i, j);
  }

  lemma PutSpares<V>(m: Machine<V>, capacity: int, key: string, claims: V, j: nat)
    requires WellFormed(m, capacity) && Has(m, key)
    requires j < |m.slots| && m.slots[j].key != key && !m.slots[j].visited
    ensures Has(Evict(Put(m, capacity, key, claims)), key)
  {
    PutMarks(m, capacity, key, claims);
    PutWellFormed(m, capacity, key, claims);
    var i :| 0 <= i < |m.slots| && m.slots[i].key == key;
    VisitedIsSpared(Put(m, capacity, key, claims), capacity, i, j);
  }

  // ----- whole runs -----

  datatype Op<V> = GetOp(key: string) | PutOp(key: string, claims: V)

  /** One operation; the guard keeps the step total on states no run reaches. */
  function Step<V>(m: Machine<V>, capacity: int, op: Op<V>): Machine<V>
    requires m.hand.Some? ==> m.hand.value < |m.slots|
  {
    match op
    case GetOp(key) => Get(m, key).0
    case PutOp(key, claims) => Put(m, capacity, key, claims)
  }

  lemma StepWellFormed<V>(m: Machine<V>, capacity: int, op: Op<V>)
    requires WellFormed(m, capacity)
    ensures WellFormed(Step(m, capacity, op), capacity)
  {
    match op
    case GetOp(key) => GetWellFormed(m, capacity, key);
    case PutOp(key, claims) => PutWellFormed(m, capacity, key, claims);
  }

  ghost function Run<V>(ops: seq<Op<V>>, capacity: int): (m: Machine<V>)
    ensures WellFormed(m, capacity)
  {
    if ops == [] then Machine([], None)
    else
      var before := Run(ops[..|ops| - 1], capacity);
      StepWellFormed(before, capacity, ops[|ops| - 1]);
      Step(before, capacity, ops[|ops| - 1])
  }

  /** The claims most recently put under a key. */
  function LastPut<V>(ops: seq<Op<V>>, key: string): Option<V> {
    if ops == [] then None
    else
      var op := ops[|ops| - 1];
      if op.PutOp? && op.key == key then Some(op.claims) else LastPut(ops[..|ops| - 1], key)
  }

  /** Coherence over every run: a hit answers with the claims last put under that very key. */
  lemma {:induction false} HitIsLastPut<V>(ops: seq<Op<V>>, capacity: int, key: string)
    ensures var hit := Get(Run(ops, capacity), key).1;
            hit.Some? ==> hit == LastPut(ops, key)
  {
    if ops != [] {
      var before := Run(ops[..|ops| - 1], capacity);
      var op := ops[|ops| - 1];
      HitIsLastPut(ops[..|ops| - 1], capacity, key);
      StepKeepsOthers(before, capacity, op, key);
    }
  }

  /** A step never changes the claims another key is cached with. */
  lemma StepKeepsOthers<V>(m: Machine<V>, capacity: int, op: Op<V>, key: string)
    requires WellFormed(m, capacity)
    ensures var hit := Get(Step(m, capacity, op), key).1;
            var put := op.PutOp? && op.key == key && capacity > 0;
            hit.Some? ==> hit == if put then Some(op.claims) else Get(m, key).1
  {
    match op
    case GetOp(k) =>
    case PutOp(k, claims) =>
      if capacity > 0 && Find(m.slots, k) == |m.slots| {
        if |m.slots| >= capacity {
          EvictKeepsClaims(m, capacity, key);
          InsertKeepsOthers(Evict(m), k, claims, key);
        } else {
          InsertKeepsOthers(m, k, claims, key);
        }
      }
  }

  lemma InsertKeepsOthers<V>(m: Machine<V>, k: string, claims: V, key: string)
    ensures Get(Insert(m, k, claims), key).1 == if key == k then Some(claims) else Get(m, key).1
  {
    var after := Insert(m, k, claims).slots;
    var i := Find(m.slots, key);
    if key == k {
      assert after[0].key == key;
    } else {
      assert forall j :: 0 < j < |after| ==> after[j] == m.slots[j - 1];
      assert Find(after, key) == i + 1 by {
        var j := Find(after, key);
        assert after[0].key != key;
        assert i < |m.slots| ==> after[i + 1].key == key;
        assert j < i + 1 ==> m.slots[j - 1].key == key;
      }
    }
  }

  lemma EvictKeepsClaims<V>(m: Machine<V>, capacity: int, key: string)
    requires WellFormed(m, capacity)
    ensures var hit := Get(Evict(m), key).1;
            hit.Some? ==> hit == Get(m, key).1
  {
    var r := Evict(m);
    var j := Find(r.slots, key);
    if m.slots != [] && j < |r.slots| {
      EvictWellFormed(m, capacity);
      EvictOrigin(m, j);
      assert Find(m.slots, key) == Origin(Victim(m), j);
    }
  }

  // ----- what a bit means over a run -----

  /** The bit of a key's entry. */
  predicate Bit<V>(m: Machine<V>, key: string) {
    exists i :: 0 <= i < |m.slots| && m.slots[i].key == key && m.slots[i].visited
  }

  /** At capacity, the sweep passes the key's entry. */
  predicate Passed<V>(m: Machine<V>, capacity: int, key: string)
    requires m.hand.Some? ==> m.hand.value < |m.slots|
  {
    |m.slots| >= capacity && exists i :: 0 <= i < |m.slots| && m.slots[i].key == key && Met(m, i)
  }

  /** The operation looks up or puts a key that is cached. */
  predicate Touches<V>(m: Machine<V>, op: Op<V>, key: string) { op.key == key && Has(m, key) }

  /** The operation inserts the key, or its sweep passes the key's entry. */
  predicate Resets<V>(m: Machine<V>, capacity: int, op: Op<V>, key: string)
    requires m.hand.Some? ==> m.hand.value < |m.slots|
  {
    || (op.PutOp? && op.key == key && !Has(m, key))
    || (op.PutOp? && capacity > 0 && !Has(m, op.key) && Passed(m, capacity, key))
  }

  /** What one operation does to the bit of a key that stays or becomes cached. */
  lemma StepBit<V>(m: Machine<V>, capacity: int, op: Op<V>, key: string)
    requires WellFormed(m, capacity) && Has(Step(m, capacity, op), key)
    ensures Bit(Step(m, capacity, op), key) <==>
            Touches(m, op, key) || (!Resets(m, capacity, op, key) && Bit(m, key))
    ensures Has(m, key) || Resets(m, capacity, op, key)
  {
    match op
    case GetOp(k) => GetMarks(m, k); GetWellFormed(m, capacity, k);
    case PutOp(k, claims) =>
      if capacity <= 0 {
      } else if Has(m, k) {
        PutMarks(m, capacity, k, claims);
      } else {
        if key == k {
          InsertBit(m, capacity, k, claims);
        } else {
          OtherBit(m, capacity, k, claims, key);
        }
      }
  }

  /** A key just inserted starts unvisited. */
  lemma InsertBit<V>(m: Machine<V>, capacity: int, k: string, claims: V)
    requires WellFormed(m, capacity) && capacity > 0 && !Has(m, k)
    ensures !Bit(Put(m, capacity, k, claims), k)
  {
    PutInserts(m, capacity, k, claims);
    PutWellFormed(m, capacity, k, claims);
  }

  /** The other keys keep their bits, up to what the eviction clears. */
  lemma OtherBit<V>(m: Machine<V>, capacity: int, k: string, claims: V, key: string)
    requires WellFormed(m, capacity) && capacity > 0 && !Has(m, k) && key != k
    requires Has(Put(m, capacity, k, claims), key)
    ensures Bit(Put(m, capacity, k, claims), key) <==> Bit(m, key) && !Passed(m, capacity, key)
    ensures Has(m, key)
  {
    PutInserts(m, capacity, k, claims);
    var e, r := Roomy(m, capacity), Put(m, capacity, k, claims);
    var i :| 0 <= i < |r.slots| && r.slots[i].key == key;
    assert r.slots[i] == e.slots[i - 1];
    ShiftedBit(e, r, key);
    RoomyBit(m, capacity, key, i - 1);
  }

  lemma RoomyBit<V>(m: Machine<V>, capacity: int, key: string, j: nat)
    requires WellFormed(m, capacity) && capacity > 0
    requires j < |Roomy(m, capacity).slots| && Roomy(m, capacity).slots[j].key == key
    ensures Has(m, key)
    ensures Bit(Roomy(m, capacity), key) <==> Bit(m, key) && !Passed(m, capacity, key)
  {
    if |m.slots| >= capacity {
      SurvivorBit(m, capacity, key, j);
    } else {
      assert m.slots[j].key == key;
    }
  }

  lemma ShiftedBit<V>(e: Machine<V>, r: Machine<V>, key: string)
    requires |r.slots| == |e.slots| + 1 && r.slots[0].key != key
    requires forall i :: 0 <= i < |e.slots| ==> r.slots[i + 1] == e.slots[i]
    ensures Bit(r, key) <==> Bit(e, key)
  {
    if Bit(r, key) {
      var i :| 0 <= i < |r.slots| && r.slots[i].key == key && r.slots[i].visited;
      assert e.slots[i - 1] == r.slots[i];
    }
    if Bit(e, key) {
      var i :| 0 <= i < |e.slots| && e.slots[i].key == key && e.slots[i].visited;
      assert r.slots[i + 1] == e.slots[i];
    }
  }

  /** A key that survives an eviction keeps its bit unless the sweep met it. */
  lemma SurvivorBit<V>(m: Machine<V>, capacity: int, key: string, j: nat)
    requires WellFormed(m, capacity) && m.slots != []
    requires j < |Evict(m).slots| && Evict(m).slots[j].key == key
    ensures Has(m, key)
    ensures Bit(Evict(m), key) <==>
            Bit(m, key) && !exists i :: 0 <= i < |m.slots| && m.slots[i].key == key && Met(m, i)
  {
    var v := Victim(m);
    EvictWellFormed(m, capacity);
    EvictOrigin(m, j);
    var i := Origin(v, j);
    EvictKeepsSurvivor(m, i);
    assert m.slots[i].key == key;
    assert Evict(m).slots[j].visited == (m.slots[i].visited && !Met(m, i));
  }

  ghost predicate TouchedAt<V>(ops: seq<Op<V>>, capacity: int, key: string, n: nat)
    requires n < |ops|
  {
    Touches(Run(ops[..n], capacity), ops[n], key)
  }

  ghost predicate ResetAt<V>(ops: seq<Op<V>>, capacity: int, key: string, n: nat)
    requires n < |ops|
  {
    Resets(Run(ops[..n], capacity), capacity, ops[n], key)
  }

  /** Operation `n` touched the key, and no later one inserted it or passed its entry. */
  ghost predicate LastsFrom<V>(ops: seq<Op<V>>, capacity: int, key: string, n: nat)
    requires n < |ops|
  {
    TouchedAt(ops, capacity, key, n) && forall k :: n < k < |ops| ==> !ResetAt(ops, capacity, key, k)
  }

  ghost predicate TouchedSince<V>(ops: seq<Op<V>>, capacity: int, key: string) {
    exists n :: 0 <= n < |ops| && LastsFrom(ops, capacity, key, n)
  }

  /** After any run, a cached key's bit is set exactly when the key was touched since it was inserted or last passed. */
  lemma {:induction false} BitMeansTouched<V>(ops: seq<Op<V>>, capacity: int, key: string)
    requires Has(Run(ops, capacity), key)
    ensures Bit(Run(ops, capacity), key) <==> TouchedSince(ops, capacity, key)
  {
    if ops != [] {
      var n := |ops| - 1;
      var init := ops[..n];
      StepBit(Run(init, capacity), capacity, ops[n], key);
      if Has(Run(init, capacity), key) {
        BitMeansTouched(init, capacity, key);
      }
      TouchedNext(ops, capacity, key);
    }
  }

  lemma SamePrefix<V>(ops: seq<Op<V>>, capacity: int, key: string, n: nat, k: nat)
    requires k < n <= |ops|
    ensures TouchedAt(ops[..n], capacity, key, k) == TouchedAt(ops, capacity, key, k)
    ensures ResetAt(ops[..n], capacity, key, k) == ResetAt(ops, capacity, key, k)
  {
    assert ops[..n][..k] == ops[..k] && ops[..n][k] == ops[k];
  }

  lemma LastsOneMore<V>(ops: seq<Op<V>>, capacity: int, key: string, t: nat, n: nat)
    requires t < n && |ops| == n + 1
    ensures LastsFrom(ops, capacity, key, t) <==>
            LastsFrom(ops[..n], capacity, key, t) && !ResetAt(ops, capacity, key, n)
  {
    var init := ops[..n];
    SamePrefix(ops, capacity, key, n, t);
    forall k | t < k < n
      ensures ResetAt(init, capacity, key, k) == ResetAt(ops, capacity, key, k)
    {
      SamePrefix(ops, capacity, key, n, k);
    }
  }

  lemma TouchedNext<V>(ops: seq<Op<V>>, capacity: int, key: string)
    requires ops != []
    ensures var n := |ops| - 1;
            TouchedSince(ops, capacity, key) <==>
            || TouchedAt(ops, capacity, key, n)
            || (!ResetAt(ops, capacity, key, n) && TouchedSince(ops[..n], capacity, key))
  {
    var n := |ops| - 1;
    assert LastsFrom(ops, capacity, key, n) == TouchedAt(ops, capacity, key, n);
    forall t | 0 <= t < n
      ensures LastsFrom(ops, capacity, key, t) <==>
              LastsFrom(ops[..n], capacity, key, t) && !ResetAt(ops, capacity, key, n)
    {
      LastsOneMore(ops, capacity, key, t, n);
    }
  }
}
