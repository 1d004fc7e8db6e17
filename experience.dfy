/** The experience replay memory of the training loop: a ring buffer of
    transition records with a fixed capacity, a write cursor that wraps
    around, uniform sampling without replacement and a destructive drain.

    A transition (state, action, next state, reward) is never inspected by the
    buffer, so it is the type parameter T here. */
module Experience {
  import opened RingSpec

  class ReplayMemory<T> {
    /** The number of slots; fixed at construction. */
    const capacity: nat
    /** The stored records, slot by slot. */
    var memory: seq<T>
    /** The write cursor: the slot the next push writes. */
    var position: nat
    /** Every record pushed since construction or the last drain, in push order. */
    ghost var pushed: seq<T>

    /** The buffer's invariant: the length never exceeds the capacity, the
        cursor stays in range and counts pushes modulo the capacity, while
        filling the cursor is the length, and each slot holds the latest push
        written to it. */
    ghost predicate Valid()
      reads this
    {
      |memory| <= capacity &&
      (capacity == 0 ==> position == 0 && pushed == []) &&
      (capacity > 0 ==> position < capacity && position == |pushed| % capacity) &&
      (|memory| < capacity ==> position == |memory|) &&
      memory == Stored(pushed, capacity)
    }

    /** A new, empty buffer with its cursor on slot 0. */
    constructor (capacity: nat)
      ensures Valid()
      ensures this.capacity == capacity
      ensures memory == [] && position == 0 && pushed == []
    {
      this.capacity := capacity;
      memory := [];
      position := 0;
      pushed := [];
    }

    /** Saves a transition. Below capacity a slot is appended first; the record
        is then written at the cursor, and the cursor advances modulo the capacity. */
    method Push(x: T)
      requires Valid()
      requires capacity > 0
      modifies this
      ensures Valid()
      ensures pushed == old(pushed) + [x]
      ensures position == (old(position) + 1) % capacity
      ensures old(|memory|) < capacity ==> memory == old(memory) + [x]
      ensures old(|memory|) == capacity ==> memory == old(memory)[old(position) := x]
    {
      ghost var n := |pushed|;
      StoredPush(pushed, x, capacity);
      ModSucc(n, capacity);
      if n + 1 < capacity {
        ModOfShift(n + 1, 0, capacity);
      }
      if |memory| < capacity {
        // The source appends an empty slot and then overwrites it at the
        // cursor; the cursor equals the old length here, so the new record
        // itself can stand in for the empty slot.
        memory := memory + [x];
      }
      memory := memory[position := x];
      assert memory == Stored(pushed + [x], capacity);
      position := (position + 1) % capacity;
      pushed := pushed + [x];
    }

    /** A batch of batchSize records drawn from distinct slots. The choice of
        slots is left open, as a random draw would make it. */
    method Sample(batchSize: nat) returns (batch: seq<T>, ghost picks: seq<nat>)
      requires batchSize <= |memory|
      ensures |batch| == batchSize
      ensures multiset(batch) <= multiset(memory)
      ensures |picks| == batchSize
      ensures forall k :: 0 <= k < |picks| ==> picks[k] < |memory| && batch[k] == memory[picks[k]]
      ensures forall k, l :: 0 <= k < l < |picks| ==> picks[k] != picks[l]
    {
      // A partial shuffle of a copy: after round i the first i entries of the
      // copy are the draws, and the rest are the records not drawn yet.
      // `order` records which slot each entry of the copy came from.
      var pool := memory;
      ghost var n := |memory|;
      ghost var order: seq<nat> := seq(n, i => i);
      for i := 0 to batchSize
        invariant |pool| == |order| == n
        invariant multiset(pool) == multiset(memory)
        invariant Tracks(pool, order, memory)
        invariant Distinct(order)
      {
        var j :| i <= j < |pool|;
        SwapTracks(pool, order, memory, i, j);
        pool := pool[i := pool[j]][j := pool[i]];
        order := order[i := order[j]][j := order[i]];
      }
      batch, picks := pool[..batchSize], order[..batchSize];
      PrefixMultiset(pool, batchSize);
      assert Tracks(batch, picks, memory) && Distinct(picks);
    }

    /** Hands back everything stored and empties the buffer, cursor on slot 0. */
    method Pull() returns (drained: seq<T>)
      requires Valid()
      modifies this
      ensures Valid()
      ensures drained == old(memory)
      ensures old(|pushed|) <= capacity ==> drained == old(pushed)
      ensures memory == [] && position == 0 && pushed == []
    {
      if |pushed| <= capacity {
        StoredWhileFilling(pushed, capacity);
      }
      drained := memory;
      memory := [];
      position := 0;
      pushed := [];
    }

    /** The number of stored records: the pushes since the last drain, capped
        at the capacity. */
    function Length(): (n: nat)
      reads this
      requires Valid()
      ensures n <= capacity
      ensures n == if |pushed| < capacity then |pushed| else capacity
    {
      |memory|
    }

    /** Before the buffer wraps it holds the pushes in push order. */
    lemma InPushOrder()
      requires Valid()
      requires |pushed| <= capacity
      ensures memory == pushed
    {
      StoredWhileFilling(pushed, capacity);
    }

    /** Once the buffer has wrapped it holds exactly the last capacity pushes:
        read from the cursor onwards and then from slot 0, oldest first. */
    lemma HoldsMostRecent()
      requires Valid()
      requires 0 < capacity <= |pushed|
      ensures |memory| == capacity
      ensures memory[position..] + memory[..position] == pushed[|pushed| - capacity..]
    {
      StoredOnceFull(pushed, capacity);
    }
  }

  /** A prefix of s holds no record more often than s does. */
  lemma PrefixMultiset<U>(s: seq<U>, b: nat)
    requires b <= |s|
    ensures multiset(s[..b]) <= multiset(s)
  {
    assert s == s[..b] + s[b..];
  }

  /** s lists pairwise different slot numbers. */
  ghost predicate Distinct(s: seq<nat>) {
    forall k, l :: 0 <= k < l < |s| ==> s[k] != s[l]
  }

  /** Entry k of pool is the record in slot order[k] of memory. */
  ghost predicate Tracks<U>(pool: seq<U>, order: seq<nat>, memory: seq<U>) {
    |pool| == |order| &&
    forall k :: 0 <= k < |order| ==> order[k] < |memory| && pool[k] == memory[order[k]]
  }

  /** Exchanging entries i and j of a copy and of its slot numbers keeps the
      copy's multiset, the correspondence and the distinctness of the slots. */
  lemma SwapTracks<U>(pool: seq<U>, order: seq<nat>, memory: seq<U>, i: nat, j: nat)
    requires Tracks(pool, order, memory) && Distinct(order)
    requires i < |pool| && j < |pool|
    ensures var pool', order' := pool[i := pool[j]][j := pool[i]], order[i := order[j]][j := order[i]];
            Tracks(pool', order', memory) && Distinct(order') &&
            multiset(pool') == multiset(pool)
  {
  }

  /** Draining twice in a row: the second drain hands back nothing. */
  method PullTwice<T>(m: ReplayMemory<T>) returns (first: seq<T>, second: seq<T>)
    requires m.Valid()
    modifies m
    ensures m.Valid() && m.memory == [] && m.position == 0
    ensures first == old(m.memory)
    ensures second == []
  {
    first := m.Pull();
    second := m.Pull();
  }
}
