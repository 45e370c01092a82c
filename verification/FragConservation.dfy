/** What becomes of the processed fragments, counted. */
module FragConservation {
  import opened Basics
  import opened Frame
  import opened LruCache
  import opened FragParser
  import opened FragRuns

  function FilledCount(list: Slots): nat {
    if list == [] then 0 else (if list[0].Some? then 1 else 0) + FilledCount(list[1..])
  }

  /** Fragments stored under the given keys. */
  function CountAll(order: seq<Key>, entries: map<Key, Slots>): nat
    requires forall k :: k in order ==> k in entries
  {
    if order == [] then 0 else FilledCount(entries[order[0]]) + CountAll(order[1..], entries)
  }

  /** Fragments waiting in the cache. */
  ghost function Stored(c: Cache): nat
    requires c.Valid(CAPACITY)
  {
    OrderKnown(c);
    CountAll(c.order, c.entries)
  }

  lemma OrderKnown(c: Cache)
    requires c.Valid(CAPACITY)
    ensures forall k :: k in c.order ==> k in c.entries
  {
    assert forall k :: k in c.order ==> k in Members(c.order);
  }

  /** Slots handed to a reassembly attempt by this call. */
  function Popped(c: Cache, i: FragItem): nat {
    if Completes(c, i) then |ListFor(c, i)| else 0
  }

  /** The fragment of this call is refused because its part number is out of range. */
  function Rejected(c: Cache, i: FragItem): nat { if Accepts(c, i) then 0 else 1 }

  /** An earlier fragment of the same part is overwritten. */
  function Replaced(c: Cache, i: FragItem): nat {
    if Accepts(c, i) && ListFor(c, i)[i.part as int].Some? then 1 else 0
  }

  /** Fragments of the list that is thrown out to make room. */
  function Evicted(c: Cache, i: FragItem): nat {
    if c.order == [] then 0
    else
      var k := c.order[|c.order| - 1];
      if Evicts(c, i, k) && k in c.entries then FilledCount(c.entries[k]) else 0
  }

  lemma {:induction false} FilledUpdate(list: Slots, p: nat, v: FragItem)
    requires p < |list|
    ensures FilledCount(list[p := Some(v)]) == FilledCount(list) + if list[p].Some? then 0 else 1
  {
    if p == 0 {
    } else {
      FilledUpdate(list[1..], p - 1, v);
      assert list[p := Some(v)][1..] == list[1..][p - 1 := Some(v)];
    }
  }

  lemma {:induction false} FilledExtremes(list: Slots)
    ensures Complete(list) ==> FilledCount(list) == |list|
    ensures (forall i :: 0 <= i < |list| ==> list[i] == None) ==> FilledCount(list) == 0
  {
    if list == [] {
    } else {
      assert forall i :: 0 <= i < |list| - 1 ==> list[1..][i] == list[i + 1];
      FilledExtremes(list[1..]);
    }
  }

  lemma {:induction false} CountFrame(order: seq<Key>, e: map<Key, Slots>, f: map<Key, Slots>)
    requires forall k :: k in order ==> k in e && k in f && e[k] == f[k]
    ensures CountAll(order, e) == CountAll(order, f)
  {
    if order == [] {
    } else {
      CountFrame(order[1..], e, f);
    }
  }

  lemma {:induction false} CountWithout(order: seq<Key>, e: map<Key, Slots>, k: Key)
    requires Distinct(order) && k in order
    requires forall x :: x in order ==> x in e
    ensures forall x :: x in Without(order, k) ==> x in e && x != k
    ensures CountAll(order, e) == CountAll(Without(order, k), e) + FilledCount(e[k])
  {
    WithoutKeeps(order, k);
    var r := Without(order, k);
    assert forall x :: x in r ==> x in Members(r);
    if order[0] != k {
      CountWithout(order[1..], e, k);
      assert r == [order[0]] + Without(order[1..], k);
    }
  }

  lemma StoredRemove(c: Cache, k: Key)
    requires c.Valid(CAPACITY) && k in c.entries
    ensures c.Remove(k).Valid(CAPACITY)
    ensures Stored(c) == Stored(c.Remove(k)) + FilledCount(c.entries[k])
  {
    OrderKnown(c);
    RemoveKeepsValid(c, k, CAPACITY);
    OrderKnown(c.Remove(k));
    assert k in Members(c.order);
    CountWithout(c.order, c.entries, k);
    CountFrame(Without(c.order, k), c.entries, c.entries - {k});
  }

  lemma StoredPromote(c: Cache, k: Key)
    requires c.Valid(CAPACITY) && k in c.entries
    ensures c.Promote(k).Valid(CAPACITY)
    ensures Stored(c.Promote(k)) == Stored(c)
  {
    OrderKnown(c);
    PromoteKeepsValid(c, k, CAPACITY);
    assert k in Members(c.order);
    CountWithout(c.order, c.entries, k);
    assert c.Promote(k).order[1..] == Without(c.order, k);
  }

  lemma {:induction false} StoredWrite(c: Cache, k: Key, v: Slots)
    requires c.Valid(CAPACITY) && k in c.entries
    ensures c.Write(k, v).Valid(CAPACITY)
    ensures Stored(c.Write(k, v)) + FilledCount(c.entries[k]) == Stored(c) + FilledCount(v)
  {
    OrderKnown(c);
    assert k in Members(c.order);
    CountWithout(c.order, c.entries, k);
    CountWithout(c.order, c.entries[k := v], k);
    CountFrame(Without(c.order, k), c.entries, c.entries[k := v]);
  }

  lemma StoredTouch(c: Cache, i: FragItem)
    requires c.Valid(CAPACITY)
    ensures Touch(c, i).Valid(CAPACITY)
    ensures Stored(Touch(c, i)) + Evicted(c, i) == Stored(c)
  {
    StepKeepsValid(c, i);
    var k, t := KeyOf(i), Touch(c, i);
    if k in c.entries {
      StoredPromote(c, k);
    } else {
      var room := c.Evict(CAPACITY);
      EvictMakesRoom(c, CAPACITY);
      if |c.order| >= CAPACITY {
        assert c.order[|c.order| - 1] in Members(c.order);
        StoredRemove(c, c.order[|c.order| - 1]);
      }
      OrderKnown(room);
      OrderKnown(t);
      FilledExtremes(EmptySlots(i.totalPart));
      assert t.order[1..] == room.order;
      CountFrame(room.order, room.entries, t.entries);
    }
  }

  /** One call: what is stored afterwards, what was popped, replaced, evicted and
      rejected add up to what was stored before plus the fragment of the call. */
  lemma StepConserves(c: Cache, i: FragItem)
    requires c.Valid(CAPACITY)
    ensures Step(c, i).0.Valid(CAPACITY)
    ensures Stored(Step(c, i).0) + Popped(c, i) + Replaced(c, i) + Evicted(c, i) + Rejected(c, i)
            == Stored(c) + 1
  {
    StepKeepsValid(c, i);
    StoredTouch(c, i);
    var k, t := KeyOf(i), Touch(c, i);
    if Accepts(c, i) {
      var list := Filled(c, i);
      FilledUpdate(ListFor(c, i), i.part, i);
      StoredWrite(t, k, list);
      if Complete(list) {
        FilledExtremes(list);
        StoredRemove(t.Write(k, list), k);
      }
    }
  }

  /** Running totals over all calls so far. */
  datatype Ledger = Ledger(popped: nat, replaced: nat, evicted: nat, rejected: nat)

  function Totals(frames: seq<FragItem>): Ledger {
    if frames == [] then
      Ledger(0, 0, 0, 0)
    else
      var prev, i := frames[..|frames| - 1], frames[|frames| - 1];
      var c, l := After(EMPTY, prev), Totals(prev);
      Ledger(l.popped + Popped(c, i), l.replaced + Replaced(c, i),
             l.evicted + Evicted(c, i), l.rejected + Rejected(c, i))
  }

  /** Over every run the five totals add up to the number of fragments processed. */
  lemma {:induction false} FragmentsConserved(frames: seq<FragItem>)
    ensures After(EMPTY, frames).Valid(CAPACITY)
    ensures var l := Totals(frames);
            Stored(After(EMPTY, frames)) + l.popped + l.replaced + l.evicted + l.rejected == |frames|
  {
    AfterValid(EMPTY, frames);
    if frames == [] {
    } else {
      var prev := frames[..|frames| - 1];
      FragmentsConserved(prev);
      StepConserves(After(EMPTY, prev), frames[|frames| - 1]);
    }
  }
}
