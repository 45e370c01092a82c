/** The bounded reassembler against one that never forgets. */
module FragRefinement {
  import opened Basics
  import opened Frame
  import opened Assembly
  import opened LruCache
  import opened FragParser
  import opened FragRuns

  type Table = map<Key, Slots>

  /** The same call on an unbounded table. */
  function FreeStep(m: Table, i: FragItem): (Table, Outcome) {
    var key := KeyOf(i);
    var list := if key in m then m[key] else EmptySlots(i.totalPart);
    if i.part >= |list| then
      (m[key := list], Returned(None))
    else
      var filled := list[i.part as int := Some(i)];
      if Complete(filled) then (m - {key}, Assembled(Unwrap(filled)))
      else (m[key := filled], Returned(None))
  }

  function FreeAfter(frames: seq<FragItem>): Table {
    if frames == [] then map[]
    else FreeStep(FreeAfter(frames[..|frames| - 1]), frames[|frames| - 1]).0
  }

  function FreeOutcomes(frames: seq<FragItem>): (outs: seq<Outcome>)
    ensures |outs| == |frames|
  {
    if frames == [] then []
    else
      var prev := frames[..|frames| - 1];
      FreeOutcomes(prev) + [FreeStep(FreeAfter(prev), frames[|frames| - 1]).1]
  }

  /** Keys held at once while call t runs: a completed list is taken out only after
      its entry was put in. */
  function Peak(frames: seq<FragItem>, t: nat): set<Key>
    requires t < |frames|
  {
    FreeAfter(frames[..t]).Keys + {KeyOf(frames[t])}
  }

  lemma OrderSize(c: Cache)
    requires c.Valid(CAPACITY)
    ensures |c.entries.Keys| == |c.order|
  {
    DistinctCardinality(c.order);
  }

  /** The two calls agree on the call's own key and on the result. */
  lemma OwnAgrees(c: Cache, i: FragItem)
    requires c.Valid(CAPACITY)
    ensures Step(c, i).1 == FreeStep(c.entries, i).1
    ensures KeyOf(i) in Step(c, i).0.entries <==> KeyOf(i) in FreeStep(c.entries, i).0
    ensures KeyOf(i) in Step(c, i).0.entries ==>
              Step(c, i).0.entries[KeyOf(i)] == FreeStep(c.entries, i).0[KeyOf(i)]
  {
    StepOwn(c, i);
  }

  /** On any other key they agree unless the bounded call evicts it. */
  lemma OtherAgrees(c: Cache, i: FragItem, k: Key)
    requires c.Valid(CAPACITY) && k != KeyOf(i)
    ensures k in Step(c, i).0.entries <==> k in FreeStep(c.entries, i).0 && !Evicts(c, i, k)
    ensures k in Step(c, i).0.entries ==> Step(c, i).0.entries[k] == FreeStep(c.entries, i).0[k]
  {
    StepOther(c, i, k);
  }

  lemma SameTable(e: Table, f: Table)
    requires forall k :: k in e <==> k in f
    requires forall k :: k in e ==> e[k] == f[k]
    ensures e == f
  {
    assert e.Keys == f.Keys;
  }

  /** One call agrees with the unbounded one on the result always, and on the
      table exactly when the table has room for its key. */
  lemma StepRefines(c: Cache, i: FragItem)
    requires c.Valid(CAPACITY)
    ensures Step(c, i).1 == FreeStep(c.entries, i).1
    ensures Step(c, i).0.entries == FreeStep(c.entries, i).0 <==> |c.entries.Keys + {KeyOf(i)}| <= 50
  {
    OrderSize(c);
    OwnAgrees(c, i);
    var key := KeyOf(i);
    assert c.entries.Keys + {key} == if key in c.entries then c.entries.Keys else c.entries.Keys + {key};
    if key !in c.entries && |c.order| == 50 {
      var victim := c.order[49];
      assert victim in Members(c.order);
      OtherAgrees(c, i, victim);
      StepOther(c, i, victim);
      FreeKeepsOthers(c.entries, i, victim);
    } else {
      forall k | k != key
        ensures k in Step(c, i).0.entries <==> k in FreeStep(c.entries, i).0
        ensures k in Step(c, i).0.entries ==> Step(c, i).0.entries[k] == FreeStep(c.entries, i).0[k]
      {
        OtherAgrees(c, i, k);
      }
      SameTable(Step(c, i).0.entries, FreeStep(c.entries, i).0);
    }
  }

  lemma FreeKeepsOthers(m: Table, i: FragItem, k: Key)
    requires k != KeyOf(i)
    ensures k in FreeStep(m, i).0 <==> k in m
    ensures k in m ==> FreeStep(m, i).0[k] == m[k]
  {
  }

  /** The unbounded reassembler never holds more than 50 keys at once. */
  ghost predicate WithinCapacity(frames: seq<FragItem>) {
    forall t :: 0 <= t < |frames| ==> |Peak(frames, t)| <= 50
  }

  lemma {:induction false} WithinPrefix(frames: seq<FragItem>, n: nat)
    requires n <= |frames| && WithinCapacity(frames)
    ensures WithinCapacity(frames[..n])
  {
    forall t | 0 <= t < n ensures |Peak(frames[..n], t)| <= 50 {
      assert frames[..n][..t] == frames[..t];
      assert |Peak(frames, t)| <= 50;
    }
  }

  lemma {:induction false} RefinesOneMore(frames: seq<FragItem>, n: nat)
    requires n + 1 == |frames| && |Peak(frames, n)| <= 50
    requires After(EMPTY, frames[..n]).entries == FreeAfter(frames[..n])
    requires Outcomes(EMPTY, frames[..n]) == FreeOutcomes(frames[..n])
    ensures After(EMPTY, frames).entries == FreeAfter(frames)
    ensures Outcomes(EMPTY, frames) == FreeOutcomes(frames)
  {
    AfterValid(EMPTY, frames[..n]);
    StepRefines(After(EMPTY, frames[..n]), frames[n]);
  }

  /** On every run during which an unbounded reassembler never holds more than 50
      keys at once, the bounded one holds the same lists and returns the same
      results call by call. */
  lemma {:induction false} RunRefines(frames: seq<FragItem>)
    requires WithinCapacity(frames)
    ensures After(EMPTY, frames).entries == FreeAfter(frames)
    ensures Outcomes(EMPTY, frames) == FreeOutcomes(frames)
  {
    if frames == [] {
    } else {
      var n := |frames| - 1;
      WithinPrefix(frames, n);
      RunRefines(frames[..n]);
      RefinesOneMore(frames, n);
    }
  }

  lemma FreeAfterStep(frames: seq<FragItem>, t: nat)
    requires t < |frames|
    ensures FreeAfter(frames[..t + 1]) == FreeStep(FreeAfter(frames[..t]), frames[t]).0
  {
    assert frames[..t + 1][..t] == frames[..t];
  }

  /** The two tables agree after n calls. */
  ghost predicate Agree(frames: seq<FragItem>, n: nat)
    requires n <= |frames|
  {
    After(EMPTY, frames[..n]).entries == FreeAfter(frames[..n])
  }

  lemma AgreeWithinCapacity(frames: seq<FragItem>, n: nat)
    requires n <= |frames| && WithinCapacity(frames)
    ensures Agree(frames, n)
  {
    WithinPrefix(frames, n);
    RunRefines(frames[..n]);
  }

  lemma AgreementNeedsRoom(frames: seq<FragItem>, t: nat)
    requires t < |frames| && Agree(frames, t) && Agree(frames, t + 1)
    ensures |Peak(frames, t)| <= 50
  {
    AfterValid(EMPTY, frames[..t]);
    AfterStep(EMPTY, frames, t);
    FreeAfterStep(frames, t);
    StepRefines(After(EMPTY, frames[..t]), frames[t]);
  }

  /** The bounded reassembler holds the lists of the unbounded one all through a run if
      and only if that one never holds more than 50 keys at once. */
  lemma RunAgreesIff(frames: seq<FragItem>)
    ensures (forall n :: 0 <= n <= |frames| ==> Agree(frames, n)) <==> WithinCapacity(frames)
  {
    if forall n :: 0 <= n <= |frames| ==> Agree(frames, n) {
      forall t | 0 <= t < |frames| ensures |Peak(frames, t)| <= 50 {
        AgreementNeedsRoom(frames, t);
      }
    }
    if WithinCapacity(frames) {
      forall n | 0 <= n <= |frames| ensures Agree(frames, n) {
        AgreeWithinCapacity(frames, n);
      }
    }
  }

  // ---- What an observer sees ----

  /** A fragment without data for key k, the first of so many. */
  function Probe(k: Key, parts: byte): FragItem {
    FragItem(k.0, k.0, k.1, 0, parts, 0, 0, [])
  }

  /** A forgotten key starts a new list, so a probe in one part is returned at once and the
      first of two is not. */
  lemma ProbeOfForgotten(c: Cache, k: Key)
    requires c.Valid(CAPACITY) && k !in c.entries
    ensures Step(c, Probe(k, 1)).1 == Returned(Some([]))
    ensures Step(c, Probe(k, 2)).1 == Returned(None)
  {
    WrongLengthPanics(c, Probe(k, 1));
    StepOwn(c, Probe(k, 2));
    assert Filled(c, Probe(k, 2))[1] == None;
  }

  /** The number of parts in a later fragment does not matter to a list already there. */
  lemma ProbesOfKept(m: Table, k: Key)
    requires k in m && FreeStep(m, Probe(k, 1)).1 == Returned(Some([]))
    ensures FreeStep(m, Probe(k, 2)).1 != Returned(None)
  {
    var one, two := m[k][0 := Some(Probe(k, 1))], m[k][0 := Some(Probe(k, 2))];
    assert Complete(one);
    assert forall i :: 0 < i < |one| ==> two[i] == one[i];
    var items, others := Unwrap(one), Unwrap(two);
    SameCopies(items, others);
  }

  /** Items that differ in nothing the copy loop looks at. */
  lemma SameCopies(items: seq<FragItem>, others: seq<FragItem>)
    requires |items| == |others|
    requires forall i :: 0 <= i < |items| ==>
               && Start(items[i]) == Start(others[i]) && items[i].len == others[i].len
               && items[i].data == others[i].data
    ensures TotalLen(items) == TotalLen(others)
    ensures Assembled(items) == Assembled(others)
  {
    SameTotals(items, others);
    SameCopyAll(items, others, Zeros(TotalLen(items)));
  }

  lemma {:induction false} SameTotals(items: seq<FragItem>, others: seq<FragItem>)
    requires |items| == |others| && forall i :: 0 <= i < |items| ==> items[i].len == others[i].len
    ensures TotalLen(items) == TotalLen(others)
  {
    if items == [] {
    } else {
      SameTotals(items[1..], others[1..]);
    }
  }

  lemma {:induction false} SameCopyAll(items: seq<FragItem>, others: seq<FragItem>, buf: Packet)
    requires |items| == |others|
    requires forall i :: 0 <= i < |items| ==>
               && Start(items[i]) == Start(others[i]) && items[i].len == others[i].len
               && items[i].data == others[i].data
    ensures CopyAll(items, buf) == CopyAll(others, buf)
  {
    if items == [] {
    } else if Fits(items[0], |buf|) && Sized(items[0]) {
      assert Overwrite(buf, items[0]) == Overwrite(buf, others[0]);
      SameCopyAll(items[1..], others[1..], Overwrite(buf, items[0]));
    }
  }

  /** The fragment gets the same result from both. */
  ghost predicate SameResult(c: Cache, m: Table, g: FragItem) {
    Step(c, g).1 == FreeStep(m, g).1
  }

  /** A key that only the unbounded table still holds can be told by one more fragment. */
  lemma ForgottenShows(c: Cache, m: Table, k: Key)
    requires c.Valid(CAPACITY) && k !in c.entries && k in m
    ensures !SameResult(c, m, Probe(k, 1)) || !SameResult(c, m, Probe(k, 2))
  {
    ProbeOfForgotten(c, k);
    if FreeStep(m, Probe(k, 1)).1 == Returned(Some([])) {
      ProbesOfKept(m, k);
    }
  }

  /** A call over capacity loses a key that the unbounded table keeps. */
  lemma OverCapacityForgets(c: Cache, i: FragItem)
    requires c.Valid(CAPACITY) && |c.entries.Keys + {KeyOf(i)}| > 50
    ensures exists k :: k !in Step(c, i).0.entries && k in FreeStep(c.entries, i).0
  {
    OrderSize(c);
    assert KeyOf(i) in c.entries ==> c.entries.Keys + {KeyOf(i)} == c.entries.Keys;
    var victim := c.order[49];
    assert victim in Members(c.order);
    StepOther(c, i, victim);
    FreeKeepsOthers(c.entries, i, victim);
  }

  /** After n calls no further fragment tells the two reassemblers apart. */
  ghost predicate Alike(frames: seq<FragItem>, n: nat)
    requires n <= |frames|
  {
    forall g :: SameResult(After(EMPTY, frames[..n]), FreeAfter(frames[..n]), g)
  }

  lemma AgreeingAreAlike(frames: seq<FragItem>, n: nat)
    requires n <= |frames| && Agree(frames, n)
    ensures Alike(frames, n)
  {
    AfterValid(EMPTY, frames[..n]);
    forall g ensures SameResult(After(EMPTY, frames[..n]), FreeAfter(frames[..n]), g) {
      StepRefines(After(EMPTY, frames[..n]), g);
    }
  }

  lemma OverCapacityShows(frames: seq<FragItem>, t: nat)
    requires t < |frames| && Agree(frames, t) && |Peak(frames, t)| > 50
    ensures !Alike(frames, t + 1)
  {
    var c, m := After(EMPTY, frames[..t + 1]), FreeAfter(frames[..t + 1]);
    AfterValid(EMPTY, frames[..t]);
    AfterValid(EMPTY, frames[..t + 1]);
    AfterStep(EMPTY, frames, t);
    FreeAfterStep(frames, t);
    OverCapacityForgets(After(EMPTY, frames[..t]), frames[t]);
    var k :| k !in c.entries && k in m;
    ForgottenShows(c, m, k);
  }

  lemma {:induction false} AlikeMeansRoom(frames: seq<FragItem>, t: nat)
    requires t < |frames| && forall n :: 0 <= n <= |frames| ==> Alike(frames, n)
    ensures |Peak(frames, t)| <= 50 && Agree(frames, t)
  {
    if t == 0 {
      assert frames[..0] == [];
    } else {
      AlikeMeansRoom(frames, t - 1);
      RoomKeepsAgreement(frames, t - 1);
    }
    if |Peak(frames, t)| > 50 {
      OverCapacityShows(frames, t);
    }
  }

  lemma RoomKeepsAgreement(frames: seq<FragItem>, t: nat)
    requires t < |frames| && Agree(frames, t) && |Peak(frames, t)| <= 50
    ensures Agree(frames, t + 1)
  {
    AfterValid(EMPTY, frames[..t]);
    AfterStep(EMPTY, frames, t);
    FreeAfterStep(frames, t);
    StepRefines(After(EMPTY, frames[..t]), frames[t]);
  }

  /** The results, both ways: at no point of a run can one more fragment tell the bounded
      reassembler from the unbounded one, if and only if that one never holds more than 50
      keys at once. */
  lemma RunAlikeIff(frames: seq<FragItem>)
    ensures (forall n :: 0 <= n <= |frames| ==> Alike(frames, n)) <==> WithinCapacity(frames)
  {
    if forall n :: 0 <= n <= |frames| ==> Alike(frames, n) {
      forall t | 0 <= t < |frames| ensures |Peak(frames, t)| <= 50 {
        AlikeMeansRoom(frames, t);
      }
    }
    if WithinCapacity(frames) {
      forall n | 0 <= n <= |frames| ensures Alike(frames, n) {
        AgreeWithinCapacity(frames, n);
        AgreeingAreAlike(frames, n);
      }
    }
  }

  /** Counting keys between calls only is not enough: a one-part fragment leaves
      the unbounded table as it was, yet a full cache loses its oldest list. */
  lemma OnePartFragmentEvicts(c: Cache, i: FragItem)
    requires c.Valid(CAPACITY) && |c.order| == 50
    requires KeyOf(i) !in c.entries && i.totalPart == 1 && i.part == 0
    ensures FreeStep(c.entries, i).0 == c.entries
    ensures Step(c, i).0.entries == c.entries - {c.order[49]}
  {
    var key, e := KeyOf(i), Step(c, i).0.entries;
    assert Completes(c, i);
    StepOwn(c, i);
    var victim := c.order[49];
    forall k | k != key
      ensures k in e <==> k in c.entries && k != victim
      ensures k in e ==> e[k] == c.entries[k]
    {
      StepOther(c, i, k);
    }
    assert e.Keys == c.entries.Keys - {victim};
    assert e == c.entries - {victim};
  }
}
