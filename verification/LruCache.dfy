/**
 The least-recently-used cache behind the caching verifier: a map and the order its
 keys were last used in, most recent first, at most `capacity` of them.
 */
module LruCache {
  import opened Wrappers

  datatype Cache<K, V> = Cache(order: seq<K>, store: map<K, V>)

  predicate Distinct<K(==)>(s: seq<K>)
  {
    s == [] || (s[0] !in s[1..] && Distinct(s[1..]))
  }

  function Remove<K(==)>(s: seq<K>, k: K): (r: seq<K>)
    ensures k !in s ==> r == s
    ensures forall x :: x in r ==> x in s
  {
    if s == [] then [] else if s[0] == k then s[1..] else [s[0]] + Remove(s[1..], k)
  }

  ghost predicate Wf<K, V>(capacity: nat, c: Cache<K, V>)
  {
    && capacity > 0 && |c.order| <= capacity && Distinct(c.order)
    && (forall k :: k in c.order ==> k in c.store) && (forall k :: k in c.store ==> k in c.order)
  }

  /** A lookup that finds its key makes it the most recent. */
  function Lookup<K(==), V>(c: Cache<K, V>, k: K): Cache<K, V>
  {
    if k in c.store then c.(order := [k] + Remove(c.order, k)) else c
  }

  /** A put makes its key the most recent; a new key pushes the least recent out of a full cache. */
  function Insert<K(==), V>(capacity: nat, c: Cache<K, V>, k: K, v: V): Cache<K, V>
  {
    if k in c.store then Cache([k] + Remove(c.order, k), c.store[k := v])
    else if |c.order| < capacity || c.order == [] then Cache([k] + c.order, c.store[k := v])
    else
      var last := |c.order| - 1;
      Cache([k] + c.order[..last], (c.store - {c.order[last]})[k := v])
  }

  lemma {:induction false} RemoveKeeps<K>(s: seq<K>, k: K)
    requires Distinct(s)
    ensures Distinct(Remove(s, k)) && |Remove(s, k)| == (if k in s then |s| - 1 else |s|)
    ensures forall x :: x in Remove(s, k) <==> x in s && x != k
  {
    if s != [] && s[0] != k {
      RemoveKeeps(s[1..], k);
      var r := Remove(s, k);
      assert r[1..] == Remove(s[1..], k);
    }
  }

  lemma {:induction false} DropLastKeeps<K>(s: seq<K>)
    requires s != [] && Distinct(s)
    ensures Distinct(s[..|s| - 1])
    ensures forall x :: x in s[..|s| - 1] <==> x in s && x != s[|s| - 1]
  {
    var t, u := s[..|s| - 1], s[1..];
    assert s == [s[0]] + u;
    if |s| > 1 {
      DropLastKeeps(u);
      assert t == [s[0]] + u[..|u| - 1];
      assert s[|s| - 1] == u[|u| - 1] && u[|u| - 1] in u;
      forall x ensures x in t <==> x in s && x != s[|s| - 1] {
        assert x in t <==> x == s[0] || x in u[..|u| - 1];
        assert x in s <==> x == s[0] || x in u;
      }
    }
  }

  lemma ConsWf<K, V>(capacity: nat, k: K, tail: seq<K>, store: map<K, V>)
    requires Distinct(tail) && |tail| < capacity && k in store
    requires forall x :: x in tail <==> x in store && x != k
    ensures Wf(capacity, Cache([k] + tail, store))
  {
    var order := [k] + tail;
    assert order[1..] == tail;
    assert forall x :: x in order <==> x == k || x in tail;
  }

  lemma LookupKeeps<K, V>(capacity: nat, c: Cache<K, V>, k: K)
    requires Wf(capacity, c)
    ensures Wf(capacity, Lookup(c, k)) && Lookup(c, k).store == c.store
  {
    if k in c.store {
      RemoveKeeps(c.order, k);
      ConsWf(capacity, k, Remove(c.order, k), c.store);
    }
  }

  /** A put keeps the capacity, holds the new pair, and otherwise only forgets. */
  lemma InsertKeeps<K, V>(capacity: nat, c: Cache<K, V>, k: K, v: V)
    requires Wf(capacity, c)
    ensures var r := Insert(capacity, c, k, v);
            && Wf(capacity, r) && r.order[0] == k
            && k in r.store && r.store[k] == v
            && forall x :: x in r.store && x != k ==> x in c.store && r.store[x] == c.store[x]
  {
    var r := Insert(capacity, c, k, v);
    if k in c.store {
      RemoveKeeps(c.order, k);
      ConsWf(capacity, k, Remove(c.order, k), r.store);
    } else if |c.order| < capacity {
      ConsWf(capacity, k, c.order, r.store);
    } else {
      var last, tail := c.order[|c.order| - 1], c.order[..|c.order| - 1];
      DropLastKeeps(c.order);
      forall x ensures x in tail <==> x in r.store && x != k {
        assert x in r.store <==> x == k || (x in c.store && x != last);
        assert x in tail <==> x in c.order && x != last;
      }
      ConsWf(capacity, k, tail, r.store);
    }
  }

  /** The keys used more recently than k. */
  function Before<K>(s: seq<K>, k: K): set<K>
  {
    if s == [] || s[0] == k then {} else {s[0]} + Before(s[1..], k)
  }

  /** Using another key puts at most that key before k. */
  lemma {:induction false} BeforeMove<K>(s: seq<K>, a: K, k: K)
    requires a != k
    ensures Before([a] + Remove(s, a), k) <= {a} + Before(s, k)
  {
    assert ([a] + Remove(s, a))[1..] == Remove(s, a);
    BeforeRemove(s, a, k);
  }

  lemma {:induction false} BeforeRemove<K>(s: seq<K>, a: K, k: K)
    requires a != k
    ensures Before(Remove(s, a), k) <= {a} + Before(s, k)
    ensures k in s ==> k in Remove(s, a)
  {
    if s != [] && s[0] != a {
      BeforeRemove(s[1..], a, k);
      assert Remove(s, a)[1..] == Remove(s[1..], a);
    }
  }

  /** Using another key puts it before k, and lets nothing fall behind k. */
  lemma {:induction false} BeforeMoved<K>(s: seq<K>, a: K, k: K)
    requires a != k
    ensures {a} + Before(s, k) <= Before([a] + Remove(s, a), k)
  {
    assert ([a] + Remove(s, a))[1..] == Remove(s, a);
    BeforeRemoved(s, a, k);
  }

  lemma {:induction false} BeforeRemoved<K>(s: seq<K>, a: K, k: K)
    requires a != k
    ensures Before(s, k) <= {a} + Before(Remove(s, a), k)
  {
    if s != [] && s[0] != a && s[0] != k {
      BeforeRemoved(s[1..], a, k);
      assert Remove(s, a)[1..] == Remove(s[1..], a);
    }
  }

  lemma BeforeCons<K>(a: K, s: seq<K>, k: K)
    requires a != k
    ensures Before([a] + s, k) == {a} + Before(s, k)
  {
    assert ([a] + s)[1..] == s;
  }

  lemma {:induction false} BeforeWithin<K>(s: seq<K>, k: K)
    ensures forall x :: x in Before(s, k) ==> x in s && x != k
  {
    if s != [] && s[0] != k {
      BeforeWithin(s[1..], k);
    }
  }

  /** A key that is last has all the others before it. */
  lemma {:induction false} BeforeLast<K>(s: seq<K>)
    requires s != [] && Distinct(s)
    ensures |Before(s, s[|s| - 1])| == |s| - 1
  {
    if |s| > 1 {
      var u := s[1..];
      assert s[|s| - 1] == u[|u| - 1] && u[|u| - 1] in u;
      BeforeLast(u);
      BeforeWithin(u, s[|s| - 1]);
    }
  }

  /** Dropping a different last key changes nothing for k. */
  lemma {:induction false} BeforeDropLast<K>(s: seq<K>, k: K)
    requires k in s && s[|s| - 1] != k
    ensures k in s[..|s| - 1] && Before(s[..|s| - 1], k) == Before(s, k)
  {
    var t, u := s[..|s| - 1], s[1..];
    if s[0] == k {
      assert t[0] == k;
    } else {
      BeforeDropLast(u, k);
      assert t == [s[0]] + u[..|u| - 1];
      BeforeCons(s[0], u[..|u| - 1], k);
    }
  }

  lemma {:induction false} SubsetSize<K>(s: set<K>, t: set<K>)
    requires s <= t
    ensures |s| <= |t|
  {
    if s != {} {
      var x :| x in s;
      SubsetSize(s - {x}, t - {x});
    }
  }

  lemma {:induction false} KeysBounded<K>(order: seq<K>, keys: set<K>)
    requires forall k :: k in keys ==> k in order
    ensures |keys| <= |order|
  {
    if order != [] {
      KeysBounded(order[1..], keys - {order[0]});
    }
  }

  /** With fewer than |order| keys in play besides k, k cannot be the oldest. */
  lemma NotOldest<K>(order: seq<K>, a: K, k: K, used: set<K>)
    requires Distinct(order) && k in order && a !in order
    requires Before(order, k) <= used && |used + {a}| < |order|
    ensures order[|order| - 1] != k
  {
    var newer := Before(order, k);
    BeforeLast(order);
    BeforeWithin(order, k);
    assert |newer + {a}| == |newer| + 1;
    SubsetSize(newer + {a}, used + {a});
  }

  /** A new key in a cache that has room. */
  lemma InsertRoom<K, V>(capacity: nat, c: Cache<K, V>, a: K, v: V, k: K)
    requires Wf(capacity, c) && k in c.store && a !in c.store && |c.order| < capacity
    ensures var c' := Insert(capacity, c, a, v);
            k in c'.store && c'.store[k] == c.store[k] && Before(c'.order, k) == {a} + Before(c.order, k)
  {
    BeforeCons(a, c.order, k);
  }

  /** A new key in a full cache whose oldest key is another. */
  lemma InsertFull<K, V>(capacity: nat, c: Cache<K, V>, a: K, v: V, k: K)
    requires Wf(capacity, c) && k in c.store && a !in c.store && |c.order| == capacity
    requires c.order[|c.order| - 1] != k
    ensures var c' := Insert(capacity, c, a, v);
            k in c'.store && c'.store[k] == c.store[k] && Before(c'.order, k) == {a} + Before(c.order, k)
  {
    BeforeDropLast(c.order, k);
    BeforeCons(a, c.order[..|c.order| - 1], k);
  }

  /** Storing a new key keeps k's entry while fewer than `capacity` keys are in play besides k. */
  lemma InsertRetains<K, V>(capacity: nat, c: Cache<K, V>, a: K, v: V, k: K, used: set<K>)
    requires Wf(capacity, c) && k in c.store && a !in c.store
    requires Before(c.order, k) <= used && |used + {a}| < capacity
    ensures var c' := Insert(capacity, c, a, v);
            k in c'.store && c'.store[k] == c.store[k] && Before(c'.order, k) <= used + {a}
  {
    if |c.order| < capacity {
      InsertRoom(capacity, c, a, v, k);
    } else {
      NotOldest(c.order, a, k, used);
      InsertFull(capacity, c, a, v, k);
    }
  }

  /** Storing a new key puts it before k, unless that pushes k out. */
  lemma InsertOvertakes<K, V>(capacity: nat, c: Cache<K, V>, a: K, v: V, k: K)
    requires Wf(capacity, c) && k in c.store && a !in c.store
    ensures var c' := Insert(capacity, c, a, v);
            k in c'.store ==> Before(c'.order, k) == {a} + Before(c.order, k)
  {
    if |c.order| < capacity {
      InsertRoom(capacity, c, a, v, k);
    } else if c.order[|c.order| - 1] != k {
      InsertFull(capacity, c, a, v, k);
    }
  }

  class Lru<K(==), V> {
    const capacity: nat
    var order: seq<K>
    var store: map<K, V>

    ghost predicate Valid()
      reads this
    {
      Wf(capacity, Contents())
    }

    ghost function Contents(): Cache<K, V>
      reads this
    {
      Cache(order, store)
    }

    constructor (capacity: nat)
      requires capacity > 0
      ensures Valid() && Contents() == Cache([], map[]) && this.capacity == capacity
    {
      this.capacity := capacity;
      order, store := [], map[];
    }

    method Get(k: K) returns (v: Option<V>)
      requires Valid()
      modifies this
      ensures Valid() && Contents() == Lookup(old(Contents()), k)
      ensures v == (if k in old(store) then Some(old(store)[k]) else None)
    {
      LookupKeeps(capacity, Contents(), k);
      if k !in store {
        return None;
      }
      order := [k] + Remove(order, k);
      v := Some(store[k]);
    }

    method Put(k: K, v: V)
      requires Valid()
      modifies this
      ensures Valid() && Contents() == Insert(capacity, old(Contents()), k, v)
    {
      InsertKeeps(capacity, Contents(), k, v);
      if k in store {
        order := Remove(order, k);
      } else if |order| == capacity {
        var last := order[|order| - 1];
        order := order[..|order| - 1];
        store := store - {last};
      }
      order := [k] + order;
      store := store[k := v];
    }
  }
}
