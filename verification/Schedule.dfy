/** Reassembly of one packet under any schedule of fragments. */
module Schedule {
  import opened Basics
  import opened Frame
  import opened Assembly
  import opened LruCache
  import opened FragParser
  import opened FragRuns

  /** One packet cut into parts by a client. */
  datatype Sending = Sending(src: Ipv4Addr, dst: Ipv4Addr, id: u16, packet: Packet, pmtu: u16, parts: nat) {

    ghost predicate Valid() { Splits(packet, pmtu, parts) }

    function KeyOfAll(): Key { (src, id) }

    ghost function Part(i: nat): FragItem
      requires Valid() && i < parts
    {
      var data := Cut(packet, pmtu, parts)[i];
      FragItem(src, dst, id, i, parts, |data|, pmtu, data)
    }
  }

  /** Everything that arrives under the sending's key is one of its parts. */
  ghost predicate OnlyParts(frames: seq<FragItem>, s: Sending)
    requires s.Valid()
  {
    forall t :: 0 <= t < |frames| && KeyOf(frames[t]) == s.KeyOfAll() ==>
      frames[t].part < s.parts && frames[t] == s.Part(frames[t].part)
  }

  /** Parts that arrived among the first t calls. */
  function Seen(frames: seq<FragItem>, k: Key, t: nat): set<int>
    requires t <= |frames|
  {
    set u | 0 <= u < t && KeyOf(frames[u]) == k :: frames[u].part
  }

  ghost predicate AllSeen(frames: seq<FragItem>, s: Sending, t: nat)
    requires t <= |frames|
  {
    forall i :: 0 <= i < s.parts ==> i in Seen(frames, s.KeyOfAll(), t)
  }

  function KeysIn(frames: seq<FragItem>, lo: nat, hi: nat): set<Key>
    requires lo <= hi <= |frames|
  {
    set u | lo <= u < hi :: KeyOf(frames[u])
  }

  lemma KeysInStep(frames: seq<FragItem>, lo: nat, hi: nat)
    requires lo <= hi < |frames|
    ensures KeysIn(frames, lo, hi + 1) == KeysIn(frames, lo, hi) + {KeyOf(frames[hi])}
  {
  }

  lemma SeenStep(frames: seq<FragItem>, k: Key, t: nat)
    requires t < |frames|
    ensures Seen(frames, k, t + 1) ==
            Seen(frames, k, t) + if KeyOf(frames[t]) == k then {frames[t].part as int} else {}
  {
  }

  ghost predicate Quiet(frames: seq<FragItem>, k: Key, lo: nat, hi: nat)
    requires lo <= hi <= |frames|
  {
    forall u :: lo <= u < hi ==> KeyOf(frames[u]) != k
  }

  /** At most 49 distinct other keys between consecutive arrivals of key k. */
  ghost predicate Spaced(frames: seq<FragItem>, k: Key) {
    forall a: nat, b: nat ::
      a < b < |frames| && KeyOf(frames[a]) == k && KeyOf(frames[b]) == k && Quiet(frames, k, a + 1, b) ==>
        |KeysIn(frames, a + 1, b)| < 50
  }

  /** The arrival before call t, or -1. */
  ghost function LastArrival(frames: seq<FragItem>, k: Key, t: nat): (a: int)
    requires t <= |frames|
    ensures -1 <= a < t
    ensures a >= 0 ==> KeyOf(frames[a]) == k
    ensures Quiet(frames, k, a + 1, t)
  {
    if t == 0 then -1
    else if KeyOf(frames[t - 1]) == k then t - 1
    else LastArrival(frames, k, t - 1)
  }

  /** The list that has received the given parts. */
  ghost predicate Holds(list: Slots, s: Sending, seen: set<int>)
    requires s.Valid()
  {
    && |list| == s.parts
    && forall i :: 0 <= i < s.parts ==> list[i] == if i in seen then Some(s.Part(i)) else None
  }

  lemma {:induction false} StaysAbsent(c: Cache, frames: seq<FragItem>, k: Key, t: nat)
    requires c.Valid(CAPACITY) && k !in c.entries && t <= |frames| && Quiet(frames, k, 0, t)
    ensures k !in After(c, frames[..t]).entries
  {
    if t > 0 {
      StaysAbsent(c, frames, k, t - 1);
      AfterStep(c, frames, t - 1);
      AfterValid(c, frames[..t - 1]);
      StepOther(After(c, frames[..t - 1]), frames[t - 1], k);
    } else {
      assert frames[..0] == [];
    }
  }

  /** The cache holds this list for key k, with only the used keys ahead of it. */
  ghost predicate Keeps(c: Cache, k: Key, list: Slots, used: set<Key>) {
    k in c.entries && c.entries[k] == list && Ahead(c.order, k) <= used
  }

  lemma StaysOneCall(c: Cache, f: FragItem, k: Key, list: Slots, used: set<Key>)
    requires c.Valid(CAPACITY) && Keeps(c, k, list, used)
    requires k != KeyOf(f) && KeyOf(f) in used && |used| < 50
    ensures Keeps(Step(c, f).0, k, list, used)
  {
    SubsetSize(Ahead(c.order, k) + {KeyOf(f)}, used);
    RecentSurvives(c, f, k);
    StepOther(c, f, k);
    StepAhead(c, f, k);
  }

  lemma StaysCallAt(c: Cache, frames: seq<FragItem>, t: nat, k: Key, list: Slots, used: set<Key>)
    requires c.Valid(CAPACITY) && t < |frames| && Keeps(After(c, frames[..t]), k, list, used)
    requires k != KeyOf(frames[t]) && KeyOf(frames[t]) in used && |used| < 50
    ensures Keeps(After(c, frames[..t + 1]), k, list, used)
  {
    AfterStep(c, frames, t);
    AfterValid(c, frames[..t]);
    StaysOneCall(After(c, frames[..t]), frames[t], k, list, used);
  }

  lemma {:induction false} StaysAmong(c: Cache, frames: seq<FragItem>, k: Key, list: Slots, lo: nat, t: nat,
      used: set<Key>)
    requires c.Valid(CAPACITY) && lo <= t <= |frames| && |used| < 50
    requires forall u :: lo <= u < t ==> KeyOf(frames[u]) in used && KeyOf(frames[u]) != k
    requires Keeps(After(c, frames[..lo]), k, list, used)
    ensures Keeps(After(c, frames[..t]), k, list, used)
  {
    if t == lo {
    } else {
      StaysAmong(c, frames, k, list, lo, t - 1, used);
      StaysCallAt(c, frames, t - 1, k, list, used);
    }
  }

  /** While fewer than 50 other keys come by, a list just used keeps its place and its parts. */
  lemma StaysPresent(c: Cache, frames: seq<FragItem>, k: Key, lo: nat, t: nat)
    requires c.Valid(CAPACITY) && lo <= t <= |frames| && Quiet(frames, k, lo, t)
    requires |KeysIn(frames, lo, t)| < 50
    requires var d := After(c, frames[..lo]); k in d.entries && Ahead(d.order, k) == {}
    ensures var d, e := After(c, frames[..lo]), After(c, frames[..t]);
            && k in d.entries && k in e.entries && e.entries[k] == d.entries[k]
            && Ahead(e.order, k) <= KeysIn(frames, lo, t)
  {
    StaysAmong(c, frames, k, After(c, frames[..lo]).entries[k], lo, t, KeysIn(frames, lo, t));
  }

  /** Putting the last missing part into the list yields the packet. */
  lemma CompleteListIsPacket(s: Sending, list: Slots, seen: set<int>)
    requires s.Valid() && Holds(list, s, seen) && Complete(list)
    ensures Assembled(Unwrap(list)) == Returned(Some(s.packet))
  {
    var items := Unwrap(list);
    assert forall i :: 0 <= i < |items| ==> items[i] == s.Part(i);
    assert CutAt(items, s.pmtu, 0);
    ExactFit(items, s.pmtu);
    CutFlattens(s.packet, s.pmtu, s.parts, items);
  }

  /** The list the call works on, given what the cache holds for the sending just before it. */
  lemma ListBefore(c: Cache, s: Sending, p: nat, seen: set<int>)
    requires c.Valid(CAPACITY) && s.Valid() && p < s.parts
    requires if s.KeyOfAll() in c.entries then Holds(c.entries[s.KeyOfAll()], s, seen) else seen == {}
    ensures Accepts(c, s.Part(p)) && Holds(Filled(c, s.Part(p)), s, seen + {p})
  {
    assert Holds(ListFor(c, s.Part(p)), s, seen);
  }

  lemma HoldsAll(list: Slots, s: Sending, seen: set<int>)
    requires s.Valid() && Holds(list, s, seen)
    ensures Complete(list) <==> forall i :: 0 <= i < s.parts ==> i in seen
  {
    if i :| 0 <= i < s.parts && i !in seen {
      assert list[i] == None;
    }
  }

  /** The arrival of the last missing part. */
  lemma LastArrives(c: Cache, s: Sending, p: nat, seen: set<int>)
    requires c.Valid(CAPACITY) && s.Valid() && p < s.parts
    requires if s.KeyOfAll() in c.entries then Holds(c.entries[s.KeyOfAll()], s, seen) else seen == {}
    requires forall i :: 0 <= i < s.parts ==> i in seen + {p}
    ensures Step(c, s.Part(p)).1 == Returned(Some(s.packet))
  {
    ListBefore(c, s, p, seen);
    HoldsAll(Filled(c, s.Part(p)), s, seen + {p});
    CompleteListIsPacket(s, Filled(c, s.Part(p)), seen + {p});
    StepOwn(c, s.Part(p));
  }

  /** The arrival of a part while another is missing. */
  lemma AnotherMissing(c: Cache, s: Sending, p: nat, seen: set<int>)
    requires c.Valid(CAPACITY) && s.Valid() && p < s.parts
    requires if s.KeyOfAll() in c.entries then Holds(c.entries[s.KeyOfAll()], s, seen) else seen == {}
    requires !forall i :: 0 <= i < s.parts ==> i in seen + {p}
    ensures Step(c, s.Part(p)).1 == Returned(None)
    ensures s.KeyOfAll() in Step(c, s.Part(p)).0.entries
    ensures Holds(Step(c, s.Part(p)).0.entries[s.KeyOfAll()], s, seen + {p})
    ensures Ahead(Step(c, s.Part(p)).0.order, s.KeyOfAll()) == {}
  {
    ListBefore(c, s, p, seen);
    HoldsAll(Filled(c, s.Part(p)), s, seen + {p});
    StepOwn(c, s.Part(p));
    StepKeepsValid(c, s.Part(p));
  }

  /** What the cache says about the sending before call t. */
  ghost predicate UpToDate(c: Cache, frames: seq<FragItem>, s: Sending, t: nat)
    requires s.Valid() && t <= |frames|
  {
    var d, k := After(c, frames[..t]), s.KeyOfAll();
    if k in d.entries then Holds(d.entries[k], s, Seen(frames, k, t)) else Seen(frames, k, t) == {}
  }

  /** The sending's list is the most recent entry and holds exactly the parts seen so far. */
  ghost predicate Waiting(c: Cache, frames: seq<FragItem>, s: Sending, t: nat)
    requires s.Valid() && t <= |frames|
  {
    var d, k := After(c, frames[..t]), s.KeyOfAll();
    k in d.entries && Holds(d.entries[k], s, Seen(frames, k, t)) && Ahead(d.order, k) == {}
  }

  lemma QuietKeepsWaiting(c: Cache, frames: seq<FragItem>, s: Sending, lo: nat, t: nat)
    requires c.Valid(CAPACITY) && s.Valid() && lo <= t <= |frames|
    requires Quiet(frames, s.KeyOfAll(), lo, t) && |KeysIn(frames, lo, t)| < 50
    requires Waiting(c, frames, s, lo)
    ensures UpToDate(c, frames, s, t)
  {
    StaysPresent(c, frames, s.KeyOfAll(), lo, t);
    assert Seen(frames, s.KeyOfAll(), t) == Seen(frames, s.KeyOfAll(), lo);
  }

  lemma ArrivalCall(c: Cache, frames: seq<FragItem>, s: Sending, t: nat)
    requires c.Valid(CAPACITY) && s.Valid() && OnlyParts(frames, s)
    requires t < |frames| && KeyOf(frames[t]) == s.KeyOfAll() && UpToDate(c, frames, s, t)
    ensures OutcomeAt(c, frames, t) ==
            if AllSeen(frames, s, t + 1) then Returned(Some(s.packet)) else Returned(None)
    ensures !AllSeen(frames, s, t + 1) ==> Waiting(c, frames, s, t + 1)
  {
    var k, p := s.KeyOfAll(), frames[t].part;
    AfterValid(c, frames[..t]);
    AfterStep(c, frames, t);
    SeenStep(frames, k, t);
    if AllSeen(frames, s, t + 1) {
      LastArrives(After(c, frames[..t]), s, p, Seen(frames, k, t));
    } else {
      AnotherMissing(After(c, frames[..t]), s, p, Seen(frames, k, t));
    }
  }

  lemma GapBound(frames: seq<FragItem>, k: Key, a: nat, t: nat)
    requires Spaced(frames, k) && a < t < |frames|
    requires KeyOf(frames[a]) == k && KeyOf(frames[t]) == k && Quiet(frames, k, a + 1, t)
    ensures |KeysIn(frames, a + 1, t)| < 50
  {
  }

  lemma BeforeFirstArrival(c: Cache, frames: seq<FragItem>, s: Sending, t: nat)
    requires c.Valid(CAPACITY) && s.Valid() && s.KeyOfAll() !in c.entries
    requires t <= |frames| && Quiet(frames, s.KeyOfAll(), 0, t)
    ensures UpToDate(c, frames, s, t)
  {
    StaysAbsent(c, frames, s.KeyOfAll(), t);
  }

  lemma StillMissing(frames: seq<FragItem>, s: Sending, u: nat, t: nat)
    requires u <= t <= |frames| && !AllSeen(frames, s, t)
    ensures !AllSeen(frames, s, u)
  {
    assert Seen(frames, s.KeyOfAll(), u) <= Seen(frames, s.KeyOfAll(), t);
  }

  /** Reassembly under any schedule: fed the parts of a packet in any order, with
      repetitions and interleaved with other keys, every call for the packet's key
      returns nothing until the last missing part, whose call returns exactly the
      packet. The entry must be absent at first, and at most 49 distinct other keys
      may come between consecutive arrivals. */
  lemma {:induction false} Reassembly(c: Cache, frames: seq<FragItem>, s: Sending, t: nat)
    requires c.Valid(CAPACITY) && s.Valid() && s.KeyOfAll() !in c.entries
    requires OnlyParts(frames, s) && Spaced(frames, s.KeyOfAll())
    requires t < |frames| && KeyOf(frames[t]) == s.KeyOfAll() && !AllSeen(frames, s, t)
    ensures OutcomeAt(c, frames, t) ==
            if AllSeen(frames, s, t + 1) then Returned(Some(s.packet)) else Returned(None)
    ensures !AllSeen(frames, s, t + 1) ==> Waiting(c, frames, s, t + 1)
  {
    var a := LastArrival(frames, s.KeyOfAll(), t);
    if a < 0 {
      BeforeFirstArrival(c, frames, s, t);
    } else {
      StillMissing(frames, s, a, t);
      StillMissing(frames, s, a + 1, t);
      Reassembly(c, frames, s, a);
      GapBound(frames, s.KeyOfAll(), a, t);
      QuietKeepsWaiting(c, frames, s, a + 1, t);
    }
    ArrivalCall(c, frames, s, t);
  }

  /** On the wire: the datagram of a part is read back as that part, provided its data
      leaves room for the header within the datagram bound. */
  lemma PartOnWire(s: Sending, i: nat)
    requires s.Valid() && i < s.parts
    ensures var d := [IPV4_FRAG] + EncodeFrag(s.Part(i));
            if |s.Part(i).data| <= 2031
            then Parse(d).Ok? && Parse(d).value.Ipv4Frag? && FromFrame(Parse(d).value.frag) == s.Part(i)
            else Parse(d).Err?
  {
    FragDatagramParses(s.Part(i));
    DecodeEncode(s.Part(i));
  }

  // ---- The bound of 49 is sharp ----

  lemma {:induction false} WithoutLast<T>(s: seq<T>)
    requires Distinct(s) && s != []
    ensures Without(s, s[|s| - 1]) == s[..|s| - 1]
  {
    if |s| <= 1 {
    } else {
      assert s[0] != s[|s| - 1];
      WithoutLast(s[1..]);
      assert s[1..][..|s| - 2] == s[1..|s| - 1];
    }
  }

  /** A new key goes to the front and pushes the 50th out. */
  lemma NewKeyOrder(c: Cache, f: FragItem)
    requires c.Valid(CAPACITY) && KeyOf(f) !in c.entries && f.totalPart != 1
    ensures KeyOf(f) in Step(c, f).0.entries
    ensures Step(c, f).0.order == [KeyOf(f)] + c.order[..if |c.order| < 50 then |c.order| else 49]
  {
    StepOwn(c, f);
    if Accepts(c, f) {
      var other := if f.part == 0 then 1 else 0;
      assert Filled(c, f)[other] == None;
    }
    if |c.order| == 50 {
      WithoutLast(c.order);
    }
    assert c.order[..|c.order|] == c.order;
  }

  /** Fresh lists for other keys, no two for the same one. */
  ghost predicate FreshOthers(c: Cache, frames: seq<FragItem>, k: Key) {
    && (forall u :: 0 <= u < |frames| ==>
          KeyOf(frames[u]) != k && KeyOf(frames[u]) !in c.entries && frames[u].totalPart != 1)
    && (forall u, v :: 0 <= u < v < |frames| ==> KeyOf(frames[u]) != KeyOf(frames[v]))
  }

  lemma CachedKeysStep(c: Cache, frames: seq<FragItem>, t: nat, x: Key)
    requires c.Valid(CAPACITY) && t < |frames| && x in After(c, frames[..t + 1]).entries
    ensures x in After(c, frames[..t]).entries || x == KeyOf(frames[t])
  {
    AfterValid(c, frames[..t]);
    AfterStep(c, frames, t);
    if x != KeyOf(frames[t]) {
      StepOther(After(c, frames[..t]), frames[t], x);
    }
  }

  lemma {:induction false} CachedKeysArrived(c: Cache, frames: seq<FragItem>, t: nat, x: Key)
    requires c.Valid(CAPACITY) && t <= |frames| && x in After(c, frames[..t]).entries
    ensures x in c.entries || x in KeysIn(frames, 0, t)
  {
    if t == 0 {
      assert frames[..0] == [];
    } else {
      var n := t - 1;
      KeysInStep(frames, 0, n);
      CachedKeysStep(c, frames, n, x);
      if x != KeyOf(frames[n]) {
        CachedKeysArrived(c, frames, n, x);
      }
    }
  }

  lemma {:induction false} FreshIsNotCached(c: Cache, frames: seq<FragItem>, k: Key, t: nat)
    requires c.Valid(CAPACITY) && FreshOthers(c, frames, k) && t < |frames|
    ensures KeyOf(frames[t]) !in After(c, frames[..t]).entries
  {
    var x := KeyOf(frames[t]);
    assert x !in KeysIn(frames, 0, t);
    if x in After(c, frames[..t]).entries {
      CachedKeysArrived(c, frames, t, x);
    }
  }

  /** Before call t key k has moved t places back. */
  ghost predicate Back(c: Cache, k: Key, t: nat) {
    |c.order| > t && c.order[t] == k
  }

  lemma MovesBackAt(c: Cache, frames: seq<FragItem>, k: Key, t: nat)
    requires c.Valid(CAPACITY) && FreshOthers(c, frames, k) && t < |frames| && t < 49
    requires Back(After(c, frames[..t]), k, t)
    ensures Back(After(c, frames[..t + 1]), k, t + 1)
  {
    AfterValid(c, frames[..t]);
    AfterStep(c, frames, t);
    FreshIsNotCached(c, frames, k, t);
    MovesBackOnce(After(c, frames[..t]), frames[t], k, t);
  }

  /** Each fresh list moves k one place back. */
  lemma {:induction false} MovesBack(c: Cache, frames: seq<FragItem>, k: Key, t: nat)
    requires c.Valid(CAPACITY) && Back(c, k, 0) && FreshOthers(c, frames, k)
    requires t <= |frames| && t < 50
    ensures Back(After(c, frames[..t]), k, t)
  {
    if t == 0 {
      assert frames[..0] == [];
    } else {
      MovesBack(c, frames, k, t - 1);
      MovesBackAt(c, frames, k, t - 1);
    }
  }

  lemma MovesBackOnce(c: Cache, f: FragItem, k: Key, at: nat)
    requires c.Valid(CAPACITY) && KeyOf(f) !in c.entries && f.totalPart != 1
    requires at < |c.order| && at < 49 && c.order[at] == k
    ensures |Step(c, f).0.order| > at + 1 && Step(c, f).0.order[at + 1] == k
  {
    NewKeyOrder(c, f);
  }

  lemma FullCacheForgetsLast(c: Cache, f: FragItem)
    requires c.Valid(CAPACITY) && |c.order| == 50 && KeyOf(f) !in c.entries
    requires KeyOf(f) != c.order[49]
    ensures c.order[49] !in Step(c, f).0.entries
  {
    StepOther(c, f, c.order[49]);
  }

  /** Fifty fresh lists in a row always make the parser forget key k, so a schedule
      with 50 distinct other keys between two parts can lose the packet. */
  lemma {:induction false} FiftyOthersForget(c: Cache, frames: seq<FragItem>, k: Key)
    requires c.Valid(CAPACITY) && c.order != [] && c.order[0] == k
    requires FreshOthers(c, frames, k) && |frames| == 50
    ensures k !in After(c, frames).entries
  {
    var t := 49;
    MovesBack(c, frames, k, t);
    AfterValid(c, frames[..t]);
    AfterStep(c, frames, t);
    assert frames[..t + 1] == frames;
    FreshIsNotCached(c, frames, k, t);
    FullCacheForgetsLast(After(c, frames[..t]), frames[t]);
  }
}
