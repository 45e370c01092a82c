/** Which fragments a reassembly attempt is made of: no fragment takes part in two. */
module FragAttempts {
  import opened Basics
  import opened Frame
  import opened Assembly
  import opened FragParser
  import opened FragRuns
  import opened FragConservation

  /** Call t completes its list, which is then popped and copied. */
  predicate Attempts(frames: seq<FragItem>, t: nat) {
    t < |frames| && Completes(After(EMPTY, frames[..t]), frames[t])
  }

  /** The list that call t pops. */
  function PoppedList(frames: seq<FragItem>, t: nat): Slots
    requires Attempts(frames, t)
  {
    Filled(After(EMPTY, frames[..t]), frames[t])
  }

  /** Frame u is the last one up to call t with the key of that call and part number p. */
  ghost predicate LatestAt(frames: seq<FragItem>, t: nat, p: nat, u: nat)
    requires t < |frames|
  {
    LatestPart(frames[..t + 1], 0, KeyOf(frames[t]), p, u)
  }

  /** Every earlier attempt for the key of call t came before frame u. */
  ghost predicate AttemptsBefore(frames: seq<FragItem>, t: nat, u: nat)
    requires t < |frames|
  {
    forall e: nat :: e < t && Attempts(frames, e) && KeyOf(frames[e]) == KeyOf(frames[t]) ==> e < u
  }

  /** Slot p of the list popped at t holds frame u. */
  ghost predicate SlotHolds(frames: seq<FragItem>, t: nat, p: nat, u: nat)
    requires Attempts(frames, t) && p < |PoppedList(frames, t)|
  {
    LatestAt(frames, t, p, u) && AttemptsBefore(frames, t, u) && PoppedList(frames, t)[p] == Some(frames[u])
  }

  /** An attempt leaves its key out of the cache. */
  lemma AttemptClears(frames: seq<FragItem>, t: nat)
    requires Attempts(frames, t)
    ensures KeyOf(frames[t]) !in After(EMPTY, frames[..t + 1]).entries
  {
    AfterValid(EMPTY, frames[..t]);
    AfterStep(EMPTY, frames, t);
    StepOwn(After(EMPTY, frames[..t]), frames[t]);
  }

  /** A list in the cache was created after every earlier attempt for its key. */
  lemma CreatedAfterAttempts(frames: seq<FragItem>, t: nat, made: nat, e: nat)
    requires t < |frames| && CreatedBy(frames[..t], made, KeyOf(frames[t]))
    requires e < t && Attempts(frames, e) && KeyOf(frames[e]) == KeyOf(frames[t])
    ensures e < made
  {
    AttemptClears(frames, e);
    assert frames[..t][..e + 1] == frames[..e + 1];
  }

  /** A list with more than the call's own slot filled was in the cache before. */
  lemma OtherSlotsAreOld(frames: seq<FragItem>, t: nat, p: nat)
    requires Attempts(frames, t) && p < |PoppedList(frames, t)| && p != frames[t].part
    ensures KeyOf(frames[t]) in After(EMPTY, frames[..t]).entries
    ensures PoppedList(frames, t)[p].Some?
    ensures After(EMPTY, frames[..t]).entries[KeyOf(frames[t])] == ListFor(After(EMPTY, frames[..t]), frames[t])
    ensures ListFor(After(EMPTY, frames[..t]), frames[t])[p] == PoppedList(frames, t)[p]
  {
    assert PoppedList(frames, t)[p].Some?;
  }

  lemma OwnSlot(frames: seq<FragItem>, t: nat)
    requires Attempts(frames, t)
    ensures SlotHolds(frames, t, frames[t].part, t)
  {
    assert frames[..t + 1][t] == frames[t];
  }

  lemma LatestOfLonger(prev: seq<FragItem>, f: FragItem, made: nat, k: Key, p: nat, u: nat)
    requires LatestPart(prev, made, k, p, u) && (KeyOf(f) == k ==> f.part != p)
    ensures LatestPart(prev + [f], 0, k, p, u)
  {
    assert (prev + [f])[u] == prev[u];
  }

  /** The fragment that the cache invariant finds in a slot is the last one at the call, too. */
  lemma ExplainedSlot(frames: seq<FragItem>, t: nat, made: nat, p: nat, slot: Option<FragItem>)
    requires t < |frames| && p != frames[t].part && slot.Some?
    requires SlotFrom(frames[..t], made, KeyOf(frames[t]), p, slot)
    ensures exists u: nat :: made <= u && LatestAt(frames, t, p, u) && slot == Some(frames[u])
  {
    var prev, k := frames[..t], KeyOf(frames[t]);
    var u: nat :| LatestPart(prev, made, k, p, u) && slot == Some(prev[u]);
    LatestOfLonger(prev, frames[t], made, k, p, u);
    assert frames[..t + 1] == prev + [frames[t]];
  }

  lemma OldSlot(frames: seq<FragItem>, t: nat, p: nat)
    requires Attempts(frames, t) && p < |PoppedList(frames, t)| && p != frames[t].part
    ensures exists u: nat :: SlotHolds(frames, t, p, u)
  {
    var k := KeyOf(frames[t]);
    OtherSlotsAreOld(frames, t, p);
    CacheInvariant(frames[..t], k);
    var list := After(EMPTY, frames[..t]).entries[k];
    var made: nat :| EntryExplained(frames[..t], k, list, made);
    ExplainedSlot(frames, t, made, p, list[p]);
    var u: nat :| made <= u && LatestAt(frames, t, p, u) && list[p] == Some(frames[u]);
    forall e: nat | e < t && Attempts(frames, e) && KeyOf(frames[e]) == k ensures e < u {
      CreatedAfterAttempts(frames, t, made, e);
    }
    assert SlotHolds(frames, t, p, u);
  }

  /** Each slot of a popped list holds the last fragment of its part, received after
      every earlier attempt for the key. */
  lemma PoppedSlot(frames: seq<FragItem>, t: nat, p: nat)
    requires Attempts(frames, t) && p < |PoppedList(frames, t)|
    ensures exists u: nat :: SlotHolds(frames, t, p, u)
  {
    if p == frames[t].part {
      OwnSlot(frames, t);
    } else {
      OldSlot(frames, t, p);
    }
  }

  /** The frames an attempt is made of. */
  ghost function Contributors(frames: seq<FragItem>, t: nat): set<nat>
    requires Attempts(frames, t)
  {
    ContributorsBelow(frames, t, |PoppedList(frames, t)|)
  }

  ghost function ContributorsBelow(frames: seq<FragItem>, t: nat, m: nat): set<nat>
    requires Attempts(frames, t)
  {
    set u: nat | u <= t && frames[u].part < m && LatestAt(frames, t, frames[u].part, u)
  }

  lemma LatestIs(frames: seq<FragItem>, t: nat, p: nat, u: nat)
    requires t < |frames| && LatestAt(frames, t, p, u)
    ensures u <= t && KeyOf(frames[u]) == KeyOf(frames[t]) && frames[u].part == p
  {
    assert frames[..t + 1][u] == frames[u];
  }

  lemma OneLatest(frames: seq<FragItem>, t: nat, p: nat, u: nat, v: nat)
    requires t < |frames| && LatestAt(frames, t, p, u) && LatestAt(frames, t, p, v)
    ensures u == v
  {
  }

  lemma NoContributorBelowZero(frames: seq<FragItem>, t: nat)
    requires Attempts(frames, t)
    ensures ContributorsBelow(frames, t, 0) == {}
  {
  }

  lemma OneMoreContributor(frames: seq<FragItem>, t: nat, p: nat)
    requires Attempts(frames, t) && p < |PoppedList(frames, t)|
    ensures |ContributorsBelow(frames, t, p + 1)| == |ContributorsBelow(frames, t, p)| + 1
  {
    PoppedSlot(frames, t, p);
    var u: nat :| SlotHolds(frames, t, p, u);
    ContributorsGrow(frames, t, p, u);
  }

  /** One frame for each slot. */
  lemma {:induction false} ContributorsCounted(frames: seq<FragItem>, t: nat, m: nat)
    requires Attempts(frames, t) && m <= |PoppedList(frames, t)|
    ensures |ContributorsBelow(frames, t, m)| == m
  {
    if m == 0 {
      NoContributorBelowZero(frames, t);
    } else {
      var p := m - 1;
      ContributorsCounted(frames, t, p);
      OneMoreContributor(frames, t, p);
      assert m == p + 1;
    }
  }

  lemma ContributorsGrow(frames: seq<FragItem>, t: nat, p: nat, u: nat)
    requires Attempts(frames, t) && LatestAt(frames, t, p, u)
    ensures u !in ContributorsBelow(frames, t, p)
    ensures ContributorsBelow(frames, t, p + 1) == ContributorsBelow(frames, t, p) + {u}
  {
    LatestIs(frames, t, p, u);
    forall v | v in ContributorsBelow(frames, t, p + 1) && v !in ContributorsBelow(frames, t, p) ensures v == u {
      OneLatest(frames, t, p, u, v);
    }
  }

  /** Frame u is the contributor in slot p. */
  ghost predicate Supplies(frames: seq<FragItem>, t: nat, p: nat, u: nat)
    requires Attempts(frames, t) && p < |PoppedList(frames, t)|
  {
    && u in Contributors(frames, t)
    && KeyOf(frames[u]) == KeyOf(frames[t]) && frames[u].part == p
    && PoppedList(frames, t)[p] == Some(frames[u])
  }

  ghost predicate Supplied(frames: seq<FragItem>, t: nat, p: nat)
    requires Attempts(frames, t) && p < |PoppedList(frames, t)|
  {
    exists u: nat :: Supplies(frames, t, p, u)
  }

  lemma SlotContributor(frames: seq<FragItem>, t: nat, p: nat)
    requires Attempts(frames, t) && p < |PoppedList(frames, t)|
    ensures Supplied(frames, t, p)
  {
    PoppedSlot(frames, t, p);
    var u: nat :| SlotHolds(frames, t, p, u);
    LatestIs(frames, t, p, u);
    assert Supplies(frames, t, p, u);
  }

  lemma ContributorSlot(frames: seq<FragItem>, t: nat, u: nat)
    requires Attempts(frames, t) && u in Contributors(frames, t)
    ensures frames[u].part < |PoppedList(frames, t)|
    ensures Supplies(frames, t, frames[u].part, u) && AttemptsBefore(frames, t, u)
  {
    var p := frames[u].part;
    LatestIs(frames, t, p, u);
    PoppedSlot(frames, t, p);
    var v: nat :| SlotHolds(frames, t, p, v);
    OneLatest(frames, t, p, u, v);
  }

  /** An attempt is made of as many frames as the popped list has slots: each slot holds
      one of them, of the attempt's key and the slot's part number. */
  lemma AttemptIsMadeOf(frames: seq<FragItem>, t: nat)
    requires Attempts(frames, t)
    ensures |Contributors(frames, t)| == |PoppedList(frames, t)|
    ensures forall p: nat :: p < |PoppedList(frames, t)| ==> Supplied(frames, t, p)
    ensures forall u :: u in Contributors(frames, t) ==>
              frames[u].part < |PoppedList(frames, t)| && Supplies(frames, t, frames[u].part, u)
  {
    ContributorsCounted(frames, t, |PoppedList(frames, t)|);
    forall p: nat | p < |PoppedList(frames, t)| ensures Supplied(frames, t, p) {
      SlotContributor(frames, t, p);
    }
    forall u | u in Contributors(frames, t)
      ensures frames[u].part < |PoppedList(frames, t)| && Supplies(frames, t, frames[u].part, u)
    {
      ContributorSlot(frames, t, u);
    }
  }

  /** No frame takes part in two attempts. */
  lemma OneAttempt(frames: seq<FragItem>, e: nat, t: nat, u: nat)
    requires Attempts(frames, e) && Attempts(frames, t)
    requires u in Contributors(frames, e) && u in Contributors(frames, t)
    ensures e == t
  {
    if e < t {
      NotBoth(frames, e, t, u);
    } else if t < e {
      NotBoth(frames, t, e, u);
    }
  }

  lemma NotBoth(frames: seq<FragItem>, e: nat, t: nat, u: nat)
    requires Attempts(frames, e) && Attempts(frames, t) && e < t && u in Contributors(frames, t)
    ensures u !in Contributors(frames, e)
  {
    ContributorSlot(frames, t, u);
    if u in Contributors(frames, e) {
      ContributorSlot(frames, e, u);
    }
  }

  /** The frames that took part in an attempt among the first n calls. */
  ghost function Attempted(frames: seq<FragItem>, n: nat): set<nat>
    requires n <= |frames|
  {
    set t: nat, u: nat | t < n && u <= t && Attempts(frames, t) && u in Contributors(frames, t) :: u
  }

  lemma AttemptedStep(frames: seq<FragItem>, n: nat)
    requires n < |frames|
    ensures Attempted(frames, n + 1) ==
            Attempted(frames, n) + if Attempts(frames, n) then Contributors(frames, n) else {}
    ensures Attempts(frames, n) ==> Attempted(frames, n) !! Contributors(frames, n)
  {
    if Attempts(frames, n) {
      forall u | u in Attempted(frames, n) ensures u !in Contributors(frames, n) {
        var t: nat :| t < n && Attempts(frames, t) && u in Contributors(frames, t);
        if u in Contributors(frames, n) { OneAttempt(frames, t, n, u); }
      }
    }
  }

  lemma AttemptedGrows(frames: seq<FragItem>, t: nat)
    requires t < |frames|
    ensures |Attempted(frames, t + 1)| ==
            |Attempted(frames, t)| + if Attempts(frames, t) then |PoppedList(frames, t)| else 0
  {
    AttemptedStep(frames, t);
    if Attempts(frames, t) {
      ContributorsCounted(frames, t, |PoppedList(frames, t)|);
    }
  }

  lemma PoppedTotal(frames: seq<FragItem>, t: nat)
    requires t < |frames|
    ensures Totals(frames[..t + 1]).popped ==
            Totals(frames[..t]).popped + if Attempts(frames, t) then |PoppedList(frames, t)| else 0
  {
    assert frames[..t + 1][..t] == frames[..t];
  }

  lemma AttemptedOneMore(frames: seq<FragItem>, t: nat)
    requires t < |frames| && |Attempted(frames, t)| == Totals(frames[..t]).popped
    ensures |Attempted(frames, t + 1)| == Totals(frames[..t + 1]).popped
  {
    AttemptedGrows(frames, t);
    PoppedTotal(frames, t);
  }

  /** The total of popped slots is the number of different frames that took part in an
      attempt. */
  lemma {:induction false} AttemptedCounted(frames: seq<FragItem>, n: nat)
    requires n <= |frames|
    ensures |Attempted(frames, n)| == Totals(frames[..n]).popped
  {
    if n == 0 {
      assert Attempted(frames, n) == {};
    } else {
      AttemptedCounted(frames, n - 1);
      AttemptedOneMore(frames, n - 1);
    }
  }

  /** Over every run: fragments waiting, fragments that took part in an attempt, and those
      replaced, evicted or rejected make up all the fragments processed. */
  lemma FragmentsAccounted(frames: seq<FragItem>)
    ensures After(EMPTY, frames).Valid(CAPACITY)
    ensures var l := Totals(frames);
            Stored(After(EMPTY, frames)) + |Attempted(frames, |frames|)| + l.replaced + l.evicted + l.rejected
            == |frames|
  {
    FragmentsConserved(frames);
    AttemptedCounted(frames, |frames|);
    assert frames[..|frames|] == frames;
  }

  // ---- Results of attempts ----

  /** The items a completed list hands to the copy loop are numbered by their slots. */
  lemma PoppedIsNumbered(frames: seq<FragItem>, t: nat)
    requires Attempts(frames, t)
    ensures var items := Unwrap(PoppedList(frames, t));
            && items != [] && OutcomeAt(EMPTY, frames, t) == Assembled(items)
            && forall i :: 0 <= i < |items| ==> items[i].part == i
  {
    var list := PoppedList(frames, t);
    AfterValid(EMPTY, frames[..t]);
    StepOwn(After(EMPTY, frames[..t]), frames[t]);
    forall i | 0 <= i < |list| ensures Unwrap(list)[i].part == i {
      PoppedSlot(frames, t, i);
    }
  }

  /** Call t hands the copy loop a list on which it trips: of the fragments that do not fit
      the buffer or are not of their declared length, the first fits. */
  ghost predicate Trips(frames: seq<FragItem>, t: nat) {
    && Attempts(frames, t)
    && var items := Unwrap(PoppedList(frames, t));
       exists i: nat :: TripsOn(items, TotalLen(items), i)
  }

  /** Exactly which calls of a run panic. */
  lemma PanicsIff(frames: seq<FragItem>, t: nat)
    requires t < |frames|
    ensures OutcomeAt(EMPTY, frames, t).Panicked? <==> Trips(frames, t)
  {
    if Attempts(frames, t) {
      var items := Unwrap(PoppedList(frames, t));
      PoppedIsNumbered(frames, t);
      CopyPanics(items, Zeros(TotalLen(items)));
    } else {
      AfterValid(EMPTY, frames[..t]);
      StepOwn(After(EMPTY, frames[..t]), frames[t]);
    }
  }

  /** Byte p of a reassembled packet: that of the highest-numbered part covering it, or 0. */
  function ByteAt(items: seq<FragItem>, p: nat): int {
    var c := LastCover(items, p);
    if c >= 0 && p - Start(items[c]) < |items[c].data| then items[c].data[p - Start(items[c])] else 0
  }

  /** Exactly which calls of a run deliver a packet, and what its bytes are. */
  lemma DeliversIff(frames: seq<FragItem>, t: nat)
    requires t < |frames|
    ensures (exists packet :: OutcomeAt(EMPTY, frames, t) == Returned(Some(packet))) <==>
            && Attempts(frames, t)
            && var items := Unwrap(PoppedList(frames, t)); AllFit(items, TotalLen(items)) && AllSized(items)
    ensures forall packet :: OutcomeAt(EMPTY, frames, t) == Returned(Some(packet)) ==>
              && Attempts(frames, t)
              && var items := Unwrap(PoppedList(frames, t));
                 |packet| == TotalLen(items) && forall p :: 0 <= p < |packet| ==> packet[p] == ByteAt(items, p)
  {
    if Attempts(frames, t) {
      var items := Unwrap(PoppedList(frames, t));
      PoppedIsNumbered(frames, t);
      CopyOutcome(items, Zeros(TotalLen(items)));
      if AllFit(items, TotalLen(items)) && AllSized(items) {
        assert OutcomeAt(EMPTY, frames, t) == Returned(Some(OutcomeAt(EMPTY, frames, t).packet.value));
      }
    } else {
      AfterValid(EMPTY, frames[..t]);
      StepOwn(After(EMPTY, frames[..t]), frames[t]);
    }
  }

  /** Tiling, for every call of every run: if the popped fragments fit, have honest lengths
      and do not overlap, a packet is delivered in which every byte is that of the one
      fragment covering it. */
  lemma RunTiling(frames: seq<FragItem>, t: nat, p: nat)
    requires Attempts(frames, t)
    requires var items := Unwrap(PoppedList(frames, t));
             AllFit(items, TotalLen(items)) && AllSized(items) && Disjoint(items)
    ensures var items, out := Unwrap(PoppedList(frames, t)), OutcomeAt(EMPTY, frames, t);
            && out.Returned? && out.packet.Some? && |out.packet.value| == TotalLen(items)
            && (p < TotalLen(items) ==>
                  exists c :: BelongsTo(items, p, c) && out.packet.value[p] == items[c].data[p - Start(items[c])])
  {
    PoppedIsNumbered(frames, t);
    Tiling(Unwrap(PoppedList(frames, t)), p);
  }

  /** Exact fit, for every call of every run: if the popped fragments carry a common pmtu
      m and honest lengths of at most m, the call returns their data in part order if all
      but the last are full, and nothing otherwise. */
  lemma RunExactFit(frames: seq<FragItem>, t: nat, m: u16)
    requires Attempts(frames, t)
    requires forall u :: u in Contributors(frames, t) ==> frames[u].pmtu == m && Sized(frames[u]) && frames[u].len <= m
    ensures var items := Unwrap(PoppedList(frames, t));
            OutcomeAt(EMPTY, frames, t) == Returned(if AllButLastFull(items, m) then Some(Flatten(items)) else None)
  {
    var items := Unwrap(PoppedList(frames, t));
    PoppedIsNumbered(frames, t);
    forall i | 0 <= i < |items| ensures items[i].pmtu == m && Sized(items[i]) && items[i].len <= m {
      SlotContributor(frames, t, i);
    }
    ExactFit(items, m);
  }
}
