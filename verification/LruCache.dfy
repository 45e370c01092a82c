/** A cache of bounded size that forgets the least recently used entry. */
module LruCache {
  import opened Basics

  /** Abstract content: the keys from most to least recently used, and the entries. */
  datatype Contents<!K, V> = Contents(order: seq<K>, entries: map<K, V>) {

    ghost predicate Valid(cap: nat) {
      && |order| <= cap
      && Distinct(order)
      && entries.Keys == Members(order)
    }

    /** A successful lookup makes its key the most recent one. */
    function Promote(k: K): Contents<K, V> {
      if k in entries then Contents([k] + Without(order, k), entries) else this
    }

    /** Replaces the value of a cached key without touching the order. */
    function Write(k: K, v: V): Contents<K, V>
      requires k in entries
    {
      Contents(order, entries[k := v])
    }

    function Remove(k: K): Contents<K, V> {
      Contents(Without(order, k), entries - {k})
    }

    /** Makes room for one more entry. */
    function Evict(cap: nat): Contents<K, V>
      requires cap > 0
    {
      if |order| < cap then this else Remove(order[|order| - 1])
    }

    /** Adds or replaces an entry and makes it the most recent one. */
    function Put(k: K, v: V, cap: nat): Contents<K, V>
      requires cap > 0
    {
      if k in entries then Promote(k).Write(k, v)
      else var room := Evict(cap); Contents([k] + room.order, room.entries[k := v])
    }
  }

  function Members<K(==)>(s: seq<K>): set<K> { set k | k in s }

  /** The sequence with the first occurrence of k taken out. */
  function Without<K(==)>(s: seq<K>, k: K): (r: seq<K>)
    ensures k !in s ==> r == s
    ensures k in s ==> |r| == |s| - 1
  {
    if s == [] then [] else if s[0] == k then s[1..] else [s[0]] + Without(s[1..], k)
  }

  lemma MembersOfCons<K>(x: K, s: seq<K>)
    ensures Members([x] + s) == {x} + Members(s)
    ensures Distinct(s) && x !in s ==> Distinct([x] + s)
  {
    assert forall i :: 0 < i <= |s| ==> ([x] + s)[i] == s[i - 1];
  }

  lemma {:induction false} WithoutKeeps<K>(s: seq<K>, k: K)
    requires Distinct(s)
    ensures Distinct(Without(s, k))
    ensures Members(Without(s, k)) == Members(s) - {k}
  {
    if s == [] {
    } else {
      var t := s[1..];
      WithoutKeeps(t, k);
      assert s == [s[0]] + t;
      MembersOfCons(s[0], t);
      if s[0] != k {
        assert s[0] !in Members(Without(t, k));
        MembersOfCons(s[0], Without(t, k));
      }
    }
  }

  /** The keys used more recently than k. */
  ghost function Ahead<K>(s: seq<K>, k: K): set<K> {
    if s == [] || s[0] == k then {} else {s[0]} + Ahead(s[1..], k)
  }

  ghost function Front<K>(s: seq<K>, at: nat): set<K>
    requires at <= |s|
  {
    set i | 0 <= i < at :: s[i]
  }

  lemma FrontOfCons<K>(x: K, s: seq<K>, at: nat)
    requires at <= |s|
    ensures Front([x] + s, at + 1) == {x} + Front(s, at)
  {
    var t := [x] + s;
    assert t[0] == x;
    assert forall i :: 0 <= i < |s| ==> t[i + 1] == s[i];
  }

  lemma {:induction false} FrontSize<K>(s: seq<K>, at: nat)
    requires Distinct(s) && at <= |s|
    ensures |Front(s, at)| == at
  {
    if at == 0 {
      assert Front(s, at) == {};
    } else {
      FrontSize(s, at - 1);
      assert Front(s, at) == Front(s, at - 1) + {s[at - 1]};
    }
  }

  lemma {:induction false} AheadIsFront<K>(s: seq<K>, k: K, at: nat)
    requires Distinct(s) && at < |s| && s[at] == k
    ensures Ahead(s, k) == Front(s, at)
  {
    if at == 0 {
    } else {
      AheadIsFront(s[1..], k, at - 1);
      FrontOfCons(s[0], s[1..], at - 1);
      assert s == [s[0]] + s[1..];
    }
  }

  lemma AheadIsPrefix<K>(s: seq<K>, k: K, at: nat)
    requires Distinct(s) && at < |s| && s[at] == k
    ensures Ahead(s, k) == Front(s, at)
    ensures |Ahead(s, k)| == at
  {
    AheadIsFront(s, k, at);
    FrontSize(s, at);
  }

  lemma {:induction false} AheadOfWithout<K>(s: seq<K>, x: K, k: K)
    requires Distinct(s) && x != k
    ensures Ahead(Without(s, x), k) <= Ahead(s, k)
    ensures x !in Ahead(Without(s, x), k)
  {
    if s == [] {
    } else {
      AheadOfWithout(s[1..], x, k);
      if s[0] == x {
        AheadAreMembers(s[1..], k);
      }
    }
  }

  lemma {:induction false} AheadWithoutLast<K>(s: seq<K>, k: K)
    requires Distinct(s) && s != [] && s[|s| - 1] == k
    ensures Ahead(Without(s, k), k) <= Ahead(s, k)
  {
    if |s| <= 1 {
    } else {
      assert s[0] != s[|s| - 1];
      AheadWithoutLast(s[1..], k);
    }
  }

  lemma {:induction false} AheadAreMembers<K>(s: seq<K>, k: K)
    ensures forall x :: x in Ahead(s, k) ==> x in s
  {
    if s == [] {
    } else {
      AheadAreMembers(s[1..], k);
    }
  }

  lemma {:induction false} DistinctCardinality<K>(s: seq<K>)
    requires Distinct(s)
    ensures |Members(s)| == |s|
  {
    if s == [] {
    } else {
      DistinctCardinality(s[1..]);
      assert s == [s[0]] + s[1..];
      MembersOfCons(s[0], s[1..]);
    }
  }

  lemma PromoteKeepsValid<K, V>(c: Contents<K, V>, k: K, cap: nat)
    requires c.Valid(cap)
    ensures c.Promote(k).Valid(cap)
    ensures c.Promote(k).entries == c.entries
  {
    WithoutKeeps(c.order, k);
    if k in c.entries {
      var r := Without(c.order, k);
      MembersOfCons(k, r);
    }
  }

  lemma RemoveKeepsValid<K, V>(c: Contents<K, V>, k: K, cap: nat)
    requires c.Valid(cap)
    ensures c.Remove(k).Valid(cap)
  {
    WithoutKeeps(c.order, k);
    assert Members(Without(c.order, k)) == Members(c.order) - {k};
  }

  lemma EvictMakesRoom<K, V>(c: Contents<K, V>, cap: nat)
    requires c.Valid(cap) && cap > 0
    ensures c.Evict(cap).Valid(cap) && |c.Evict(cap).order| < cap
  {
    if |c.order| == cap {
      RemoveKeepsValid(c, c.order[cap - 1], cap);
    }
  }

  lemma PutKeepsValid<K, V>(c: Contents<K, V>, k: K, v: V, cap: nat)
    requires c.Valid(cap) && cap > 0
    ensures c.Put(k, v, cap).Valid(cap)
    ensures k in c.Put(k, v, cap).entries && c.Put(k, v, cap).entries[k] == v
    ensures c.Put(k, v, cap).order != [] && c.Put(k, v, cap).order[0] == k
  {
    if k in c.entries {
      PromoteKeepsValid(c, k, cap);
    } else {
      var room := c.Evict(cap);
      EvictMakesRoom(c, cap);
      if |c.order| == cap { WithoutKeeps(c.order, c.order[cap - 1]); }
      assert k !in Members(room.order);
      MembersOfCons(k, room.order);
    }
  }

  /** The cache object: its two fields are reassigned by every operation. */
  class LruCache<K(==), V> {
    const cap: nat
    var order: seq<K>
    var entries: map<K, V>

    ghost predicate Valid()
      reads this
    {
      cap > 0 && Model().Valid(cap)
    }

    ghost function Model(): Contents<K, V>
      reads this
    {
      Contents(order, entries)
    }

    constructor (cap: nat)
      requires cap > 0
      ensures Valid() && this.cap == cap
      ensures Model() == Contents([], map[])
    {
      this.cap := cap;
      order, entries := [], map[];
    }

    /** Looks a key up; a hit makes the key the most recent one. */
    method GetMut(k: K) returns (v: Option<V>)
      requires Valid()
      modifies this
      ensures Valid() && Model() == old(Model()).Promote(k)
      ensures v == if k in old(entries) then Some(old(entries)[k]) else None
    {
      PromoteKeepsValid(Model(), k, cap);
      if k in entries {
        order := [k] + Without(order, k);
        v := Some(entries[k]);
      } else {
        v := None;
      }
    }

    /** An assignment through the reference that GetMut handed out. */
    method Write(k: K, v: V)
      requires Valid() && k in entries
      modifies this
      ensures Valid() && Model() == old(Model()).Write(k, v)
    {
      entries := entries[k := v];
    }

    /** Inserts at the front, dropping the least recent entry when there is no room. */
    method Put(k: K, v: V)
      requires Valid()
      modifies this
      ensures Valid() && Model() == old(Model()).Put(k, v, cap)
    {
      PutKeepsValid(Model(), k, v, cap);
      if k in entries {
        order := [k] + Without(order, k);
      } else {
        if |order| >= cap {
          var oldest := order[|order| - 1];
          order, entries := Without(order, oldest), entries - {oldest};
        }
        order := [k] + order;
      }
      entries := entries[k := v];
    }

    /** Takes an entry out of the cache. */
    method Pop(k: K) returns (v: Option<V>)
      requires Valid()
      modifies this
      ensures Valid() && Model() == old(Model()).Remove(k)
      ensures v == if k in old(entries) then Some(old(entries)[k]) else None
    {
      RemoveKeepsValid(Model(), k, cap);
      v := if k in entries then Some(entries[k]) else None;
      order, entries := Without(order, k), entries - {k};
    }
  }
}
