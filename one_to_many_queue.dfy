/**
 * GameFrameworkOneToManyQueue: a dictionary from key to FIFO queue whose
 * vacated queue containers go onto a free-list (bounded by a recycling
 * limit, 0 meaning unbounded) and are reused by later keys.
 *
 * The value type of the source is a reference type in every use, so a stored
 * value is an `Option<V>`: `None` is a null reference, and `default(TValue)`
 * returned for a missing key is `None` as well.
 */
module Pooling {
  import opened Wrappers

  /** A `System.Collections.Generic.Queue<T>` container: front at index 0. */
  class Queue<T> {
    var items: seq<T>

    constructor ()
      ensures items == []
    {
      items := [];
    }
  }

  /** The queue held under `key`, or the empty queue when `key` is absent. */
  function QueueAt<K, V>(m: map<K, seq<V>>, key: K): seq<V> {
    if key in m then m[key] else []
  }

  /** Whether `Recycle` keeps a vacated container, given the free-list's length before the call. */
  predicate Retains(recyclingLimit: int, poolCount: nat) {
    !(recyclingLimit != 0 && poolCount > recyclingLimit)
  }

  /** With limit 0 every container is kept; with any other limit the free-list never exceeds limit + 1. */
  lemma RetainsBound(recyclingLimit: int, poolCount: nat)
    ensures recyclingLimit == 0 ==> Retains(recyclingLimit, poolCount)
    ensures recyclingLimit != 0 && Retains(recyclingLimit, poolCount) ==> poolCount + 1 <= recyclingLimit + 1
    ensures recyclingLimit < 0 ==> !Retains(recyclingLimit, poolCount)
  {
  }

  class OneToManyQueue<K(==), V(==)> {
    /** The dictionary itself: key to its queue container. */
    var buckets: map<K, Queue<Option<V>>>
    /** `_queue`: cleared containers waiting to be reused, oldest first. */
    var pool: seq<Queue<Option<V>>>
    /** `_recyclingLimit`. */
    const recyclingLimit: int
    /** Every container this object has used. */
    ghost var Repr: set<Queue<Option<V>>>

    ghost predicate Valid()
      reads this, Repr
    {
      && (forall k :: k in buckets ==> buckets[k] in Repr)
      && (forall i :: 0 <= i < |pool| ==> pool[i] in Repr && pool[i].items == [])
      && (forall k, k' :: k in buckets && k' in buckets && k != k' ==> buckets[k] != buckets[k'])
      && (forall i, j :: 0 <= i < j < |pool| ==> pool[i] != pool[j])
      && (forall k, i :: k in buckets && 0 <= i < |pool| ==> buckets[k] != pool[i])
      && (recyclingLimit > 0 ==> |pool| <= recyclingLimit + 1)
      && (recyclingLimit < 0 ==> pool == [])
    }

    /** The abstract value: each key's queue, front first. */
    ghost function Contents(): (m: map<K, seq<Option<V>>>)
      reads this, Repr
      requires Valid()
      ensures m.Keys == buckets.Keys
    {
      map k | k in buckets :: buckets[k].items
    }

    constructor (recyclingLimit: int)
      ensures Valid() && fresh(Repr)
      ensures Contents() == map[] && pool == []
      ensures this.recyclingLimit == recyclingLimit
    {
      buckets := map[];
      pool := [];
      this.recyclingLimit := recyclingLimit;
      Repr := {};
    }

    /** True iff `key` is present and its queue holds `value`. */
    method Contains(key: K, value: Option<V>) returns (b: bool)
      requires Valid()
      ensures b <==> key in Contents() && value in Contents()[key]
    {
      b := key in buckets && value in buckets[key].items;
    }

    /** Takes a container from the free-list, or allocates one when the free-list is empty. */
    method Fetch() returns (q: Queue<Option<V>>)
      requires Valid()
      modifies this
      ensures Valid() && Repr == old(Repr) + {q} && buckets == old(buckets)
      ensures q.items == []
      ensures old(pool) != [] ==> q == old(pool)[0] && pool == old(pool)[1..]
      ensures old(pool) == [] ==> fresh(q) && pool == []
      ensures forall k :: k in buckets ==> buckets[k] != q
    {
      if |pool| <= 0 {
        q := new Queue<Option<V>>();
        Repr := Repr + {q};
      } else {
        q := pool[0];
        pool := pool[1..];
      }
    }

    /** Clears a vacated container and keeps it unless the free-list already holds more than the limit. */
    method Recycle(q: Queue<Option<V>>)
      requires Valid() && q in Repr
      requires forall k :: k in buckets ==> buckets[k] != q
      requires forall i :: 0 <= i < |pool| ==> pool[i] != q
      modifies this, q
      ensures Valid() && Repr == old(Repr) && buckets == old(buckets)
      ensures q.items == []
      ensures pool == if Retains(recyclingLimit, |old(pool)|) then old(pool) + [q] else old(pool)
    {
      q.items := [];
      if recyclingLimit != 0 && |pool| > recyclingLimit {
        return;
      }
      pool := pool + [q];
    }

    /** Appends `value` to `key`'s queue, creating the queue from a recycled container if the key is absent. */
    method Enqueue(key: K, value: Option<V>)
      requires Valid()
      modifies this, Repr
      ensures Valid() && fresh(Repr - old(Repr))
      ensures Contents() == old(Contents())[key := QueueAt(old(Contents()), key) + [value]]
      ensures key in old(buckets) ==> pool == old(pool) && buckets[key] == old(buckets[key])
      ensures key !in old(buckets) && old(pool) != [] ==> buckets[key] == old(pool)[0] && pool == old(pool)[1..]
      ensures key !in old(buckets) && old(pool) == [] ==> fresh(buckets[key]) && pool == []
    {
      if key !in buckets {
        var list := Fetch();
        list.items := list.items + [value];
        buckets := buckets[key := list];
        return;
      }
      var list := buckets[key];
      list.items := list.items + [value];
    }

    /** Removes `key` and recycles its container; no effect when `key` is absent. */
    method RemoveKey(key: K)
      requires Valid()
      modifies this, Repr
      ensures Valid() && Repr == old(Repr)
      ensures Contents() == old(Contents()) - {key}
      ensures key !in old(buckets) ==> pool == old(pool)
      ensures key in old(buckets) ==>
        pool == if Retains(recyclingLimit, |old(pool)|) then old(pool) + [old(buckets)[key]] else old(pool)
    {
      if key !in buckets {
        return;
      }
      var list := buckets[key];
      buckets := buckets - {key};
      Recycle(list);
    }

    /** Takes the front of `key`'s queue; a missing key or an empty queue yields `default` and changes nothing. */
    method Dequeue(key: K) returns (value: Option<V>)
      requires Valid()
      modifies this, Repr
      ensures Valid() && Repr == old(Repr)
      ensures QueueAt(old(Contents()), key) == [] ==>
        value == None && Contents() == old(Contents()) && pool == old(pool)
      ensures QueueAt(old(Contents()), key) != [] ==>
        var q := old(Contents())[key];
        && value == q[0]
        && (|q| > 1 ==> Contents() == old(Contents())[key := q[1..]] && pool == old(pool))
        && (|q| == 1 ==> Contents() == old(Contents()) - {key}
                         && pool == if Retains(recyclingLimit, |old(pool)|) then old(pool) + [old(buckets)[key]] else old(pool))
    {
      if key !in buckets || |buckets[key].items| == 0 {
        return None;
      }
      var list := buckets[key];
      value := list.items[0];
      list.items := list.items[1..];
      if |list.items| == 0 {
        RemoveKey(key);
      }
    }

    /** Dequeues and reports success iff the value taken is not null. */
    method TryDequeue(key: K) returns (ok: bool, value: Option<V>)
      requires Valid()
      modifies this, Repr
      ensures Valid() && Repr == old(Repr)
      ensures ok <==> value.Some?
      ensures ok <==> QueueAt(old(Contents()), key) != [] && old(Contents())[key][0].Some?
      ensures QueueAt(old(Contents()), key) == [] ==> Contents() == old(Contents())
      ensures QueueAt(old(Contents()), key) != [] ==>
        value == old(Contents())[key][0]
        && Contents() == if |old(Contents())[key]| == 1 then old(Contents()) - {key}
                         else old(Contents())[key := old(Contents())[key][1..]]
    {
      value := Dequeue(key);
      ok := value != None;
    }

    /** The class's own (protected) `Clear`: empties the dictionary and the free-list. */
    method Clear()
      requires Valid()
      modifies this
      ensures Valid() && Repr == old(Repr)
      ensures Contents() == map[] && pool == []
    {
      buckets := map[];
      pool := [];
    }

    /** A caller that changes the items of one key's container, and nothing else of this object, keeps it valid. */
    twostate lemma ItemsUpdated(key: K)
      requires old(Valid()) && key in old(buckets)
      requires unchanged(this)
      requires forall q :: q in Repr && q != buckets[key] ==> unchanged(q)
      ensures Valid()
      ensures Contents() == old(Contents())[key := buckets[key].items]
    {
    }

    /** The inherited public `Dictionary.Clear`: empties the dictionary and leaves the free-list as it is. */
    method DictionaryClear()
      requires Valid()
      modifies this
      ensures Valid() && Repr == old(Repr)
      ensures Contents() == map[] && pool == old(pool)
    {
      buckets := map[];
    }
  }

  /**
   * Strict FIFO per key: enqueueing `xs` one by one onto an absent key and
   * dequeueing as many times returns `xs` in order, whatever container was reused.
   */
  method FifoRoundTrip<K(==), V(==)>(m: OneToManyQueue<K, V>, key: K, xs: seq<Option<V>>) returns (ys: seq<Option<V>>)
    requires m.Valid() && key !in m.Contents()
    modifies m, m.Repr
    ensures m.Valid() && fresh(m.Repr - old(m.Repr))
    ensures ys == xs
    ensures m.Contents() == old(m.Contents())
  {
    EnqueueAll(m, key, xs);
    if xs == [] {
      ys := [];
    } else {
      ys := DequeueAll(m, key, |xs|);
      assert old(m.Contents())[key := xs] - {key} == old(m.Contents());
    }
  }

  /** Enqueues `xs` one by one onto the absent key `key`. */
  method EnqueueAll<K(==), V(==)>(m: OneToManyQueue<K, V>, key: K, xs: seq<Option<V>>)
    requires m.Valid() && key !in m.Contents()
    modifies m, m.Repr
    ensures m.Valid() && fresh(m.Repr - old(m.Repr))
    ensures m.Contents() == if xs == [] then old(m.Contents()) else old(m.Contents())[key := xs]
  {
    ghost var m0 := m.Contents();
    var i := 0;
    while i < |xs|
      invariant 0 <= i <= |xs|
      invariant m.Valid() && fresh(m.Repr - old(m.Repr))
      invariant m.Contents() == if i == 0 then m0 else m0[key := xs[..i]]
    {
      m.Enqueue(key, xs[i]);
      assert xs[..i + 1] == xs[..i] + [xs[i]];
      i := i + 1;
    }
    assert xs[..i] == xs;
  }

  /** Dequeues the `count` values queued under `key` (a non-empty queue), which empties and removes the key. */
  method DequeueAll<K(==), V(==)>(m: OneToManyQueue<K, V>, key: K, count: nat) returns (ys: seq<Option<V>>)
    requires m.Valid() && key in m.Contents() && count == |m.Contents()[key]| > 0
    modifies m, m.Repr
    ensures m.Valid() && fresh(m.Repr - old(m.Repr))
    ensures ys == old(m.Contents())[key]
    ensures m.Contents() == old(m.Contents()) - {key}
  {
    ghost var m0 := m.Contents();
    ghost var xs := m0[key];
    ys := [];
    assert m0[key := xs[0..]] == m0;
    while |ys| < count
      invariant |ys| <= count && ys == xs[..|ys|]
      invariant m.Valid() && fresh(m.Repr - old(m.Repr))
      invariant m.Contents() == if |ys| == count then m0 - {key} else m0[key := xs[|ys|..]]
    {
      var v := m.Dequeue(key);
      assert xs[|ys|..][0] == xs[|ys|];
      assert xs[|ys|..][1..] == xs[|ys| + 1..];
      ys := ys + [v];
    }
    assert xs[..|ys|] == xs;
  }
}
