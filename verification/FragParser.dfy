/** The reassembler: a 50-entry cache of half-filled part lists. */
module FragParser {
  import opened Basics
  import opened Frame
  import opened Assembly
  import opened LruCache

  const CAPACITY: nat := 50

  type Key = (Ipv4Addr, u16)
  type Slots = seq<Option<FragItem>>
  type Cache = Contents<Key, Slots>

  function KeyOf(i: FragItem): Key { (i.srcIp, i.id) }

  function EmptySlots(n: nat): (s: Slots)
    ensures |s| == n
    ensures forall i :: 0 <= i < n ==> s[i] == None
  {
    seq(n, _ => None)
  }

  predicate Complete(s: Slots) {
    forall i :: 0 <= i < |s| ==> s[i].Some?
  }

  function Unwrap(s: Slots): (items: seq<FragItem>)
    requires Complete(s)
    ensures |items| == |s|
    ensures forall i :: 0 <= i < |s| ==> Some(items[i]) == s[i]
  {
    seq(|s|, i requires 0 <= i < |s| => s[i].value)
  }

  /** The list of an item's key, found or created, as the most recent entry. */
  function Touch(c: Cache, i: FragItem): (r: Cache)
    ensures KeyOf(i) in r.entries
  {
    if KeyOf(i) in c.entries then c.Promote(KeyOf(i))
    else c.Put(KeyOf(i), EmptySlots(i.totalPart), CAPACITY)
  }

  /** What one call does to the cache and what it returns. */
  function Step(c: Cache, i: FragItem): (Cache, Outcome) {
    var key := KeyOf(i);
    var touched := Touch(c, i);
    var list := touched.entries[key];
    if i.part >= |list| then
      (touched, Returned(None))
    else
      var filled := list[i.part as int := Some(i)];
      if Complete(filled) then
        (touched.Write(key, filled).Remove(key), Assembled(Unwrap(filled)))
      else
        (touched.Write(key, filled), Returned(None))
  }

  class FragParser {
    const cache: LruCache<Key, Slots>

    ghost predicate Valid()
      reads cache
    {
      cache.Valid() && cache.cap == CAPACITY
    }

    ghost function Model(): Cache
      reads cache
    {
      cache.Model()
    }

    constructor ()
      ensures Valid() && fresh(cache)
      ensures Model() == Contents([], map[])
    {
      cache := new LruCache<Key, Slots>(CAPACITY);
    }

    method Process(frame: FragBody) returns (r: Outcome)
      requires Valid()
      modifies cache
      ensures Valid()
      ensures (Model(), r) == Step(old(Model()), FromFrame(frame))
    {
      var item := FromFrame(frame);
      var key := (item.srcIp, item.id);
      ghost var before := Model();
      var found := cache.GetMut(key);
      var list: Slots;
      if found.Some? {
        list := found.value;
      } else {
        cache.Put(key, EmptySlots(item.totalPart));
        PutKeepsValid(before, key, EmptySlots(item.totalPart), CAPACITY);
        var again := cache.GetMut(key);
        PromoteFirst(before.Put(key, EmptySlots(item.totalPart), CAPACITY), key);
        list := again.value;
      }
      if item.part >= |list| {
        return Returned(None);
      }
      list := list[item.part as int := Some(item)];
      cache.Write(key, list);
      if Complete(list) {
        var popped := cache.Pop(key);
        r := Assemble(Unwrap(popped.value));
      } else {
        r := Returned(None);
      }
    }
  }

  /** Looking up the most recent key changes nothing. */
  lemma PromoteFirst<K, V>(c: Contents<K, V>, k: K)
    requires c.order != [] && c.order[0] == k
    ensures c.Promote(k) == c
  {
  }
}
