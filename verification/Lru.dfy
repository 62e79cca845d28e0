// The bounded least-recently-used cache both metric caches are built on
// (github.com/hashicorp/golang-lru/v2, whose source is not part of this model;
// only its documented behaviour is).
//
// `State` is the value of a cache: its keys from oldest to newest and its entries.
// `Cache` is the object the metrics handler holds; every method is specified by
// the operation of the same name on `State`.
module Lru {
  import opened Basics

  datatype State<K(==), V> = State(capacity: nat, order: seq<K>, items: map<K, V>) {

    ghost predicate Valid() {
      && capacity > 0
      && NoDup(order)
      && Elements(order) == items.Keys
      && |order| <= capacity
    }

    /** Looks `k` up and, when it is there, makes it the most recent key. */
    function Get(k: K): (State<K, V>, Option<V>) {
      if k in items then (this.(order := Without(order, k) + [k]), Some(items[k])) else (this, None)
    }

    /** Inserts or overwrites `k` as the most recent key, dropping the oldest key if there is no room. */
    function Add(k: K, v: V): State<K, V> {
      var grown := State(capacity, Without(order, k) + [k], items[k := v]);
      if |grown.order| > capacity then
        State(capacity, grown.order[1..], grown.items - {grown.order[0]})
      else
        grown
    }

    function Remove(k: K): State<K, V> {
      if k in items then State(capacity, Without(order, k), items - {k}) else this
    }
  }

  function Empty<K, V>(capacity: nat): (s: State<K, V>)
    ensures capacity > 0 ==> s.Valid()
  {
    State(capacity, [], map[])
  }

  lemma GetProps<K, V>(s: State<K, V>, k: K)
    requires s.Valid()
    ensures var (s', v) := s.Get(k);
            && s'.Valid() && s'.items == s.items && s'.capacity == s.capacity
            && (v == if k in s.items then Some(s.items[k]) else None)
            && (k in s.items ==> s'.order != [] && s'.order[|s'.order| - 1] == k)
  {
    WithoutProps(s.order, k);
    if k in s.items {
      assert k in Elements(s.order);
      assert Elements(Without(s.order, k) + [k]) == Elements(s.order);
    }
  }

  /** Overwriting, or inserting while there is room, loses nothing. */
  lemma AddFits<K, V>(s: State<K, V>, k: K, v: V)
    requires s.Valid() && (k in s.items || |s.order| < s.capacity)
    ensures s.Add(k, v) == State(s.capacity, Without(s.order, k) + [k], s.items[k := v])
    ensures s.Add(k, v).Valid()
  {
    WithoutProps(s.order, k);
    assert k in s.items <==> k in Elements(s.order);
    assert Elements(Without(s.order, k) + [k]) == Elements(s.order) + {k};
  }

  /** Inserting into a full cache drops exactly the oldest key. */
  lemma AddEvicts<K, V>(s: State<K, V>, k: K, v: V)
    requires s.Valid() && k !in s.items && |s.order| == s.capacity
    ensures s.order[0] in s.items && s.order[0] != k
    ensures s.Add(k, v) == State(s.capacity, s.order[1..] + [k], s.items[k := v] - {s.order[0]})
    ensures s.Add(k, v).Valid()
  {
    assert k !in Elements(s.order);
    WithoutAbsent(s.order, k);
    var oldest := s.order[0];
    NewestForOldest(s.order, k);
    assert s.order + [k] == [oldest] + (s.order[1..] + [k]);
    assert s.items[k := v].Keys - {oldest} == (s.items[k := v] - {oldest}).Keys;
  }

  lemma NewestForOldest<K>(order: seq<K>, k: K)
    requires NoDup(order) && order != [] && k !in order
    ensures NoDup(order[1..] + [k]) && order[0] in Elements(order)
    ensures Elements(order[1..] + [k]) == Elements(order) + {k} - {order[0]}
  {
    assert order == [order[0]] + order[1..];
    assert order[0] !in order[1..];
  }

  lemma AddProps<K, V>(s: State<K, V>, k: K, v: V)
    requires s.Valid()
    ensures s.Add(k, v).Valid() && s.Add(k, v).capacity == s.capacity
    ensures k in s.Add(k, v).items && s.Add(k, v).items[k] == v
    ensures s.Add(k, v).order != [] && s.Add(k, v).order[|s.Add(k, v).order| - 1] == k
  {
    if k in s.items || |s.order| < s.capacity {
      AddFits(s, k, v);
    } else {
      AddEvicts(s, k, v);
    }
  }

  /** As long as every key in use lies in a set no larger than the capacity, `Add` evicts nothing. */
  lemma AddWithinUniverse<K, V>(s: State<K, V>, k: K, v: V, universe: set<K>)
    requires s.Valid()
    requires s.items.Keys <= universe && k in universe && |universe| <= s.capacity
    ensures s.Add(k, v).Valid() && s.Add(k, v).capacity == s.capacity
    ensures s.Add(k, v).items == s.items[k := v]
    ensures s.Add(k, v).order == Without(s.order, k) + [k]
  {
    if k !in s.items {
      NoDupCardinality(s.order);
      SubsetCardinality(s.items.Keys + {k}, universe);
    }
    AddFits(s, k, v);
  }

  lemma RemoveProps<K, V>(s: State<K, V>, k: K)
    requires s.Valid()
    ensures s.Remove(k).Valid() && s.Remove(k).capacity == s.capacity
    ensures s.Remove(k).items == s.items - {k}
    ensures s.Remove(k).order == Without(s.order, k)
  {
    WithoutProps(s.order, k);
    if k in s.items {
      assert Elements(Without(s.order, k)) == Elements(s.order) - {k};
    } else {
      assert k !in Elements(s.order);
      WithoutAbsent(s.order, k);
    }
  }

  // ---- What recency order means: who can outlive whom ----

  /** The keys used more recently than `k`. */
  function After<K(==)>(order: seq<K>, k: K): seq<K> {
    if order == [] then [] else if order[0] == k then order[1..] else After(order[1..], k)
  }

  /** Every key of `touched` is younger than `k`, provided `k` is still cached. */
  ghost predicate Outlived<K, V>(s: State<K, V>, k: K, touched: set<K>) {
    k in s.items ==> touched <= Elements(After(s.order, k))
  }

  lemma {:induction false} AfterTouch<K>(order: seq<K>, k: K, t: K)
    requires NoDup(order) && k in order && k != t
    ensures Elements(After(Without(order, t) + [t], k)) == Elements(After(order, k)) + {t}
  {
    var rest := order[1..];
    assert order == [order[0]] + rest;
    if order[0] == k {
      assert Without(order, t) + [t] == [k] + (Without(rest, t) + [t]);
      WithoutProps(rest, t);
      assert Elements(Without(rest, t) + [t]) == Elements(rest) + {t};
    } else if order[0] == t {
      assert Without(order, t) + [t] == rest + [t];
      WithoutAbsent(rest, t);
      AfterTouch(rest, k, t);
    } else {
      AfterTouch(rest, k, t);
      assert Without(order, t) + [t] == [order[0]] + (Without(rest, t) + [t]);
    }
  }

  lemma AddOutlives<K, V>(s: State<K, V>, k: K, touched: set<K>, t: K, v: V)
    requires s.Valid() && Outlived(s, k, touched) && t != k
    ensures Outlived(s.Add(t, v), k, touched + {t})
  {
    AddProps(s, t, v);
    if k in s.Add(t, v).items {
      assert k in Elements(s.order);
      AfterTouch(s.order, k, t);
      WithoutProps(s.order, t);
      var grown := Without(s.order, t) + [t];
      if |grown| > s.capacity {
        assert t !in Elements(s.order);
        AddEvicts(s, t, v);
        WithoutAbsent(s.order, t);
        assert grown == s.order + [t];
        assert After(grown, k) == After(grown[1..], k);
      }
    }
  }

  lemma {:induction false} AfterIsShorter<K>(order: seq<K>, k: K)
    requires k in order && NoDup(order)
    ensures NoDup(After(order, k)) && |After(order, k)| < |order|
  {
    assert order == [order[0]] + order[1..];
    if order[0] != k {
      AfterIsShorter(order[1..], k);
    }
  }

  /** Once as many other keys as the cache can hold have been used since `k`, `k` is gone. */
  lemma OutlivedIsEvicted<K, V>(s: State<K, V>, k: K, touched: set<K>)
    requires s.Valid() && Outlived(s, k, touched) && |touched| >= s.capacity
    ensures k !in s.items
  {
    if k in s.items {
      assert k in Elements(s.order);
      AfterIsShorter(s.order, k);
      NoDupCardinality(After(s.order, k));
      SubsetCardinality(touched, Elements(After(s.order, k)));
      assert false;
    }
  }

  /**
   * The keys used since `k` was the newest are exactly those younger than it while it is cached, and once it is
   * not, they are as many as the cache can hold.
   */
  ghost predicate Trails<K, V>(s: State<K, V>, k: K, used: set<K>) {
    && s.Valid() && k !in used
    && (k in s.items ==> Elements(After(s.order, k)) == used)
    && (k !in s.items ==> |used| >= s.capacity)
  }

  lemma {:induction false} NothingAfterLast<K>(order: seq<K>)
    requires NoDup(order) && order != []
    ensures After(order, order[|order| - 1]) == []
  {
    if |order| > 1 {
      assert order[1..][|order| - 2] == order[|order| - 1];
      NothingAfterLast(order[1..]);
    }
  }

  lemma {:induction false} NotAfterItself<K>(order: seq<K>, k: K)
    requires NoDup(order)
    ensures k !in After(order, k)
  {
    if order != [] && order[0] != k {
      NotAfterItself(order[1..], k);
    }
  }

  lemma TrailStarts<K, V>(s: State<K, V>, k: K)
    requires s.Valid() && s.order != [] && s.order[|s.order| - 1] == k
    ensures Trails(s, k, {})
  {
    NothingAfterLast(s.order);
    assert k in Elements(s.order);
  }

  lemma TrailGrows<K, V>(s: State<K, V>, k: K, used: set<K>, t: K, v: V)
    requires Trails(s, k, used) && t != k
    ensures Trails(s.Add(t, v), k, used + {t}) && s.Add(t, v).capacity == s.capacity
  {
    AddProps(s, t, v);
    if k !in s.items {
      SubsetCardinality(used, used + {t});
      StaysAway(s, k, t, v);
    } else {
      assert k in Elements(s.order);
      AfterTouch(s.order, k, t);
      if t in s.items || |s.order| < s.capacity {
        AddFits(s, t, v);
      } else {
        TrailInFull(s, k, used, t, v);
      }
    }
  }

  lemma StaysAway<K, V>(s: State<K, V>, k: K, t: K, v: V)
    requires s.Valid() && k !in s.items && k != t
    ensures k !in s.Add(t, v).items
  {
    if t in s.items || |s.order| < s.capacity {
      AddFits(s, t, v);
    } else {
      AddEvicts(s, t, v);
    }
  }

  lemma TrailInFull<K, V>(s: State<K, V>, k: K, used: set<K>, t: K, v: V)
    requires s.Valid() && k !in used && t != k && k in s.order && t !in s.items && |s.order| == s.capacity
    requires Elements(After(s.order, k)) == used
    requires Elements(After(Without(s.order, t) + [t], k)) == used + {t}
    ensures Trails(s.Add(t, v), k, used + {t})
  {
    AddEvicts(s, t, v);
    assert t !in Elements(s.order) && k in Elements(s.order);
    WithoutAbsent(s.order, t);
    AfterOldest(s.order, k, t);
    if s.order[0] == k {
      NewestForOldest(s.order, t);
      NoDupCardinality(s.order[1..] + [t]);
    }
  }

  lemma AfterOldest<K>(order: seq<K>, k: K, t: K)
    requires order != []
    ensures After(order + [t], k) == if order[0] == k then order[1..] + [t] else After(order[1..] + [t], k)
  {
    assert (order + [t])[1..] == order[1..] + [t];
  }

  lemma TrailLookedUp<K, V>(s: State<K, V>, k: K, used: set<K>, t: K)
    requires Trails(s, k, used) && t != k
    ensures Trails(s.Get(t).0, k, if t in s.items then used + {t} else used)
    ensures s.Get(t).0.capacity == s.capacity
  {
    GetProps(s, t);
    if t in s.items {
      SubsetCardinality(used, used + {t});
      if k in s.items {
        assert k in Elements(s.order);
        AfterTouch(s.order, k, t);
      }
    }
  }

  /** A key is cached if and only if fewer other keys than the cache can hold have been used since it was. */
  lemma CachedIff<K, V>(s: State<K, V>, k: K, used: set<K>)
    requires Trails(s, k, used)
    ensures k in s.items <==> |used| < s.capacity
  {
    if k in s.items {
      assert k in Elements(s.order);
      AfterIsShorter(s.order, k);
      NoDupCardinality(After(s.order, k));
    }
  }

  /** The cache object. */
  class Cache<K(==), V> {
    const size: nat
    var order: seq<K>
    var items: map<K, V>

    ghost function Value(): State<K, V>
      reads this
    {
      State(size, order, items)
    }

    ghost predicate Valid()
      reads this
    {
      Value().Valid()
    }

    constructor (size: nat)
      requires size > 0
      ensures Valid() && Value() == Empty(size)
    {
      this.size := size;
      order := [];
      items := map[];
    }

    method Get(k: K) returns (v: Option<V>)
      requires Valid()
      modifies this
      ensures Valid()
      ensures (Value(), v) == old(Value()).Get(k)
    {
      GetProps(Value(), k);
      if k in items {
        order := Without(order, k) + [k];
        return Some(items[k]);
      }
      return None;
    }

    method Peek(k: K) returns (v: Option<V>)
      requires Valid()
      ensures v == if k in Value().items then Some(Value().items[k]) else None
    {
      return if k in items then Some(items[k]) else None;
    }

    method Add(k: K, v: V)
      requires Valid()
      modifies this
      ensures Valid()
      ensures Value() == old(Value()).Add(k, v)
      ensures if k in old(items) || |old(order)| < size then
                items == old(items)[k := v] && order == Without(old(order), k) + [k]
              else
                items == old(items)[k := v] - {old(order)[0]} && order == old(order)[1..] + [k]
    {
      if k in items || |order| < size {
        AddFits(Value(), k, v);
      } else {
        AddEvicts(Value(), k, v);
      }
      order := Without(order, k) + [k];
      items := items[k := v];
      if |order| > size {
        items := items - {order[0]};
        order := order[1..];
      }
    }

    method Remove(k: K)
      requires Valid()
      modifies this
      ensures Valid()
      ensures Value() == old(Value()).Remove(k)
      ensures items == old(items) - {k} && order == Without(old(order), k)
    {
      RemoveProps(Value(), k);
      if k in items {
        order := Without(order, k);
        items := items - {k};
      }
    }

    /** The keys, oldest first. */
    method Keys() returns (keys: seq<K>)
      requires Valid()
      ensures keys == Value().order
    {
      return order;
    }
  }
}
