/** Runs of the reassembler: what one call does to its own list and to the others, and the
    invariant that every run keeps. */
module FragRuns {
  import opened Basics
  import opened Frame
  import opened Assembly
  import opened LruCache
  import opened FragParser

  const EMPTY: Cache := Contents([], map[])

  /** The cache after a sequence of calls. */
  function After(c: Cache, frames: seq<FragItem>): Cache {
    if frames == [] then c
    else Step(After(c, frames[..|frames| - 1]), frames[|frames| - 1]).0
  }

  /** What call number t returns. */
  function OutcomeAt(c: Cache, frames: seq<FragItem>, t: nat): Outcome
    requires t < |frames|
  {
    Step(After(c, frames[..t]), frames[t]).1
  }

  lemma {:induction false} AfterStep(c: Cache, frames: seq<FragItem>, t: nat)
    requires t < |frames|
    ensures After(c, frames[..t + 1]) == Step(After(c, frames[..t]), frames[t]).0
  {
    assert frames[..t + 1][..t] == frames[..t];
  }

  function Items(bodies: seq<FragBody>): (items: seq<FragItem>)
    ensures |items| == |bodies|
    ensures forall i :: 0 <= i < |bodies| ==> items[i] == FromFrame(bodies[i])
  {
    seq(|bodies|, i requires 0 <= i < |bodies| => FromFrame(bodies[i]))
  }

  /** The results of all calls of a run. */
  function Outcomes(c: Cache, frames: seq<FragItem>): (outs: seq<Outcome>)
    ensures |outs| == |frames|
  {
    if frames == [] then []
    else
      var prev := frames[..|frames| - 1];
      Outcomes(c, prev) + [Step(After(c, prev), frames[|frames| - 1]).1]
  }

  lemma {:induction false} OutcomesStep(c: Cache, frames: seq<FragItem>, t: nat)
    requires t < |frames|
    ensures Outcomes(c, frames[..t + 1]) == Outcomes(c, frames[..t]) + [OutcomeAt(c, frames, t)]
  {
    assert frames[..t + 1][..t] == frames[..t];
  }

  /** Feeding a parser object a sequence of fragments is the run of the specification. */
  method Feed(parser: FragParser, bodies: seq<FragBody>) returns (outs: seq<Outcome>)
    requires parser.Valid()
    modifies parser.cache
    ensures parser.Valid()
    ensures parser.Model() == After(old(parser.Model()), Items(bodies))
    ensures outs == Outcomes(old(parser.Model()), Items(bodies))
  {
    ghost var start, items := parser.Model(), Items(bodies);
    outs := [];
    for t := 0 to |bodies|
      invariant parser.Valid()
      invariant parser.Model() == After(start, items[..t])
      invariant outs == Outcomes(start, items[..t])
    {
      AfterStep(start, items, t);
      OutcomesStep(start, items, t);
      var out := parser.Process(bodies[t]);
      outs := outs + [out];
    }
    assert items[..|bodies|] == items;
  }

  /** The list the call works on, before its item goes in. */
  function ListFor(c: Cache, i: FragItem): Slots {
    if KeyOf(i) in c.entries then c.entries[KeyOf(i)] else EmptySlots(i.totalPart)
  }

  /** The call throws key k out to make room for its own. */
  predicate Evicts(c: Cache, i: FragItem, k: Key) {
    && KeyOf(i) !in c.entries
    && |c.order| >= 50
    && c.order[|c.order| - 1] == k
  }

  predicate Accepts(c: Cache, i: FragItem) { i.part < |ListFor(c, i)| }

  function Filled(c: Cache, i: FragItem): Slots
    requires Accepts(c, i)
  {
    ListFor(c, i)[i.part as int := Some(i)]
  }

  /** The call completes its list. */
  predicate Completes(c: Cache, i: FragItem) {
    Accepts(c, i) && Complete(Filled(c, i))
  }

  lemma StepKeepsValid(c: Cache, i: FragItem)
    requires c.Valid(CAPACITY)
    ensures Step(c, i).0.Valid(CAPACITY)
    ensures Touch(c, i).Valid(CAPACITY)
    ensures Touch(c, i).order != [] && Touch(c, i).order[0] == KeyOf(i)
    ensures Touch(c, i).entries[KeyOf(i)] == ListFor(c, i)
  {
    var key := KeyOf(i);
    PromoteKeepsValid(c, key, CAPACITY);
    PutKeepsValid(c, key, EmptySlots(i.totalPart), CAPACITY);
    var t := Touch(c, i);
    if Completes(c, i) {
      RemoveKeepsValid(t.Write(key, Filled(c, i)), key, CAPACITY);
    }
  }

  /** The effect of a call on its own key. */
  lemma StepOwn(c: Cache, i: FragItem)
    requires c.Valid(CAPACITY)
    ensures KeyOf(i) in Step(c, i).0.entries <==> !Completes(c, i)
    ensures !Completes(c, i) ==> Step(c, i).1 == Returned(None)
    ensures !Completes(c, i) ==>
              Step(c, i).0.entries[KeyOf(i)] == if Accepts(c, i) then Filled(c, i) else ListFor(c, i)
    ensures Completes(c, i) ==> Step(c, i).1 == Assembled(Unwrap(Filled(c, i)))
  {
    StepKeepsValid(c, i);
  }

  lemma TouchOther(c: Cache, i: FragItem, k: Key)
    requires c.Valid(CAPACITY) && k != KeyOf(i)
    ensures k in Touch(c, i).entries <==> k in c.entries && !Evicts(c, i, k)
    ensures k in Touch(c, i).entries ==> Touch(c, i).entries[k] == c.entries[k]
  {
  }

  /** The effect of a call on any other key: at most one of them is lost. */
  lemma StepOther(c: Cache, i: FragItem, k: Key)
    requires c.Valid(CAPACITY) && k != KeyOf(i)
    ensures k in Step(c, i).0.entries <==> k in c.entries && !Evicts(c, i, k)
    ensures k in Step(c, i).0.entries ==> Step(c, i).0.entries[k] == c.entries[k]
  {
    TouchOther(c, i, k);
  }

  lemma {:induction false} TouchAhead(c: Cache, i: FragItem, k: Key)
    requires c.Valid(CAPACITY) && k != KeyOf(i)
    ensures Ahead(Touch(c, i).order, k) <= Ahead(c.order, k) + {KeyOf(i)}
  {
    var key, t := KeyOf(i), Touch(c, i);
    if key in c.entries {
      AheadOfWithout(c.order, key, k);
      assert t.order[1..] == Without(c.order, key);
    } else {
      assert t.order[1..] == c.Evict(CAPACITY).order;
      if |c.order| >= 50 && c.order[|c.order| - 1] != k {
        AheadOfWithout(c.order, c.order[|c.order| - 1], k);
      } else if |c.order| >= 50 {
        AheadWithoutLast(c.order, k);
      }
    }
  }

  /** A call moves at most its own key ahead of another one. */
  lemma {:induction false} StepAhead(c: Cache, i: FragItem, k: Key)
    requires c.Valid(CAPACITY) && k != KeyOf(i)
    ensures Ahead(Step(c, i).0.order, k) <= Ahead(c.order, k) + {KeyOf(i)}
  {
    TouchAhead(c, i, k);
    StepKeepsValid(c, i);
    AheadOfWithout(Touch(c, i).order, KeyOf(i), k);
  }

  /** A key with fewer than 50 other keys used since, this call's included, survives it. */
  lemma {:induction false} RecentSurvives(c: Cache, i: FragItem, k: Key)
    requires c.Valid(CAPACITY) && k in c.entries && k != KeyOf(i)
    requires |Ahead(c.order, k) + {KeyOf(i)}| < 50
    ensures !Evicts(c, i, k)
  {
    if |c.order| == 50 && c.order[49] == k {
      AheadIsPrefix(c.order, k, 49);
      AheadAreMembers(c.order, k);
      assert KeyOf(i) !in Ahead(c.order, k) ==> |Ahead(c.order, k) + {KeyOf(i)}| == 50;
      assert KeyOf(i) in Members(c.order);
    }
  }

  lemma {:induction false} AfterValid(c: Cache, frames: seq<FragItem>)
    requires c.Valid(CAPACITY)
    ensures After(c, frames).Valid(CAPACITY)
  {
    if frames == [] {
    } else {
      AfterValid(c, frames[..|frames| - 1]);
      StepKeepsValid(After(c, frames[..|frames| - 1]), frames[|frames| - 1]);
    }
  }

  // ---- The cache invariant ----

  /** Entry k was created by frame number t and has been cached ever since. */
  ghost predicate CreatedBy(frames: seq<FragItem>, t: nat, k: Key) {
    && t < |frames| && KeyOf(frames[t]) == k
    && k !in After(EMPTY, frames[..t]).entries
    && forall u :: t < u <= |frames| ==> k in After(EMPTY, frames[..u]).entries
  }

  /** Slot number p holds the latest fragment for part p received since frame t. */
  ghost predicate SlotFrom(frames: seq<FragItem>, t: nat, k: Key, p: nat, slot: Option<FragItem>) {
    match slot
    case None =>
      forall u :: t <= u < |frames| && KeyOf(frames[u]) == k ==> frames[u].part != p
    case Some(i) =>
      exists u: nat :: LatestPart(frames, t, k, p, u) && i == frames[u]
  }

  ghost predicate LatestPart(frames: seq<FragItem>, t: nat, k: Key, p: nat, u: nat) {
    && t <= u < |frames| && KeyOf(frames[u]) == k && frames[u].part == p
    && forall v :: u < v < |frames| && KeyOf(frames[v]) == k ==> frames[v].part != p
  }

  /** The entry of k is what the frames since its creation say. */
  ghost predicate EntryExplained(frames: seq<FragItem>, k: Key, list: Slots, t: nat) {
    && CreatedBy(frames, t, k)
    && |list| == frames[t].totalPart
    && (forall p :: 0 <= p < |list| ==> SlotFrom(frames, t, k, p, list[p]))
    && (list != [] ==> !Complete(list))
  }

  lemma SlotUntouched(frames: seq<FragItem>, f: FragItem, t: nat, k: Key, p: nat, slot: Option<FragItem>)
    requires t < |frames| && SlotFrom(frames, t, k, p, slot)
    requires KeyOf(f) != k || f.part != p
    ensures SlotFrom(frames + [f], t, k, p, slot)
  {
    if slot.Some? {
      var u: nat :| LatestPart(frames, t, k, p, u) && slot.value == frames[u];
      assert LatestPart(frames + [f], t, k, p, u);
      assert (frames + [f])[u] == frames[u];
    }
  }

  lemma {:induction false} CreatedExtends(frames: seq<FragItem>, f: FragItem, t: nat, k: Key)
    requires CreatedBy(frames, t, k) && k in After(EMPTY, frames + [f]).entries
    ensures CreatedBy(frames + [f], t, k)
  {
    var g := frames + [f];
    assert g[..t] == frames[..t];
    forall u | t < u <= |g| ensures k in After(EMPTY, g[..u]).entries {
      if u <= |frames| { assert g[..u] == frames[..u]; } else { assert g[..u] == g; }
    }
  }

  /** The latest frame goes into a list that was explained before it. */
  lemma {:induction false} ExplainedAfterOwn(prev: seq<FragItem>, f: FragItem, list: Slots, t: nat)
    requires EntryExplained(prev, KeyOf(f), list, t)
    requires var c := After(EMPTY, prev);
             c.Valid(CAPACITY) && KeyOf(f) in c.entries && c.entries[KeyOf(f)] == list && !Completes(c, f)
    ensures EntryExplained(prev + [f], KeyOf(f), After(EMPTY, prev + [f]).entries[KeyOf(f)], t)
  {
    var frames, k, c := prev + [f], KeyOf(f), After(EMPTY, prev);
    assert frames[..|prev|] == prev;
    StepOwn(c, f);
    var now := After(EMPTY, frames).entries[k];
    CreatedExtends(prev, f, t, k);
    forall p | 0 <= p < |now| ensures SlotFrom(frames, t, k, p, now[p]) {
      if f.part == p {
        assert LatestPart(frames, t, k, p, |prev|);
      } else {
        SlotUntouched(prev, f, t, k, p, list[p]);
      }
    }
  }

  /** The list a frame starts. */
  lemma FirstSlots(f: FragItem, c: Cache, frames: seq<FragItem>, n: nat)
    requires n + 1 == |frames| && frames[n] == f
    requires KeyOf(f) !in c.entries && !Completes(c, f)
    ensures var list := if Accepts(c, f) then Filled(c, f) else ListFor(c, f);
            && |list| == f.totalPart && (list != [] ==> !Complete(list))
            && forall p :: 0 <= p < |list| ==> SlotFrom(frames, n, KeyOf(f), p, list[p])
  {
    assert LatestPart(frames, n, KeyOf(f), f.part, n);
    if !Accepts(c, f) && f.totalPart > 0 {
      assert ListFor(c, f)[0] == None;
    }
  }

  lemma {:induction false} CreatedNow(prev: seq<FragItem>, f: FragItem)
    requires KeyOf(f) !in After(EMPTY, prev).entries && KeyOf(f) in After(EMPTY, prev + [f]).entries
    ensures CreatedBy(prev + [f], |prev|, KeyOf(f))
  {
    var frames := prev + [f];
    assert frames[..|prev|] == prev;
    forall u | |prev| < u <= |frames| ensures frames[..u] == frames {
    }
  }

  /** The latest frame creates its entry. */
  lemma {:induction false} ExplainedAfterCreation(prev: seq<FragItem>, f: FragItem)
    requires var c := After(EMPTY, prev); c.Valid(CAPACITY) && KeyOf(f) !in c.entries && !Completes(c, f)
    ensures EntryExplained(prev + [f], KeyOf(f), After(EMPTY, prev + [f]).entries[KeyOf(f)], |prev|)
  {
    var frames, c := prev + [f], After(EMPTY, prev);
    assert frames[..|prev|] == prev;
    StepOwn(c, f);
    CreatedNow(prev, f);
    FirstSlots(f, c, frames, |prev|);
  }

  /** In every reachable cache there are at most 50 entries, each list is as long
      as the frame that created it asked for, each slot holds the latest fragment
      of its part and key since then, and no list with slots is complete. */
  lemma {:induction false} CacheInvariant(frames: seq<FragItem>, k: Key)
    requires k in After(EMPTY, frames).entries
    ensures After(EMPTY, frames).Valid(CAPACITY)
    ensures exists t: nat :: EntryExplained(frames, k, After(EMPTY, frames).entries[k], t)
  {
    AfterValid(EMPTY, frames);
    var prev, f := frames[..|frames| - 1], frames[|frames| - 1];
    var c, list := After(EMPTY, prev), After(EMPTY, frames).entries[k];
    assert frames == prev + [f];
    AfterValid(EMPTY, prev);
    if KeyOf(f) != k {
      StepOther(c, f, k);
      CacheInvariant(prev, k);
      var t: nat :| EntryExplained(prev, k, list, t);
      CreatedExtends(prev, f, t, k);
      forall p | 0 <= p < |list| ensures SlotFrom(frames, t, k, p, list[p]) {
        SlotUntouched(prev, f, t, k, p, list[p]);
      }
      assert EntryExplained(frames, k, list, t);
    } else {
      StepOwn(c, f);
      if k in c.entries {
        CacheInvariant(prev, k);
        var t: nat :| EntryExplained(prev, k, c.entries[k], t);
        ExplainedAfterOwn(prev, f, c.entries[k], t);
      } else {
        ExplainedAfterCreation(prev, f);
      }
    }
  }

  /** No cache ever holds more than 50 lists. */
  lemma AtMostFifty(frames: seq<FragItem>)
    ensures |After(EMPTY, frames).entries| <= 50
  {
    var c := After(EMPTY, frames);
    AfterValid(EMPTY, frames);
    DistinctCardinality(c.order);
    assert |c.entries| == |c.entries.Keys|;
  }

  // ---- Declared lengths ----

  /** When every fragment so far declared its true length, no call panics. */
  lemma HonestLengthsNeverPanic(frames: seq<FragItem>, t: nat)
    requires t < |frames| && forall u :: 0 <= u <= t ==> Sized(frames[u])
    ensures OutcomeAt(EMPTY, frames, t).Returned?
  {
    var prev, f := frames[..t], frames[t];
    var c := After(EMPTY, prev);
    AfterValid(EMPTY, prev);
    StepOwn(c, f);
    if Completes(c, f) {
      if KeyOf(f) in c.entries {
        CacheInvariant(prev, KeyOf(f));
      }
      var items := Unwrap(Filled(c, f));
      forall p | 0 <= p < |items| ensures Sized(items[p]) {
        assert Some(items[p]) == Filled(c, f)[p];
        if p != f.part {
          var t: nat :| EntryExplained(prev, KeyOf(f), c.entries[KeyOf(f)], t);
          assert SlotFrom(prev, t, KeyOf(f), p, Some(items[p]));
          var u: nat :| LatestPart(prev, t, KeyOf(f), p, u) && items[p] == prev[u];
          assert prev[u] == frames[u];
        }
      }
      CopyOutcome(items, Zeros(TotalLen(items)));
    }
  }

  /** Nothing in the parser checks a declared length: a packet in one part panics
      exactly when its fragment declares another length than it has. */
  lemma WrongLengthPanics(c: Cache, f: FragItem)
    requires c.Valid(CAPACITY) && KeyOf(f) !in c.entries && f.totalPart == 1 && f.part == 0
    ensures Step(c, f).1 == if |f.data| == f.len then Returned(Some(f.data)) else Panicked
  {
    StepOwn(c, f);
    assert Completes(c, f);
    var items := Unwrap(Filled(c, f));
    assert items == [f];
    assert Start(f) == 0 && TotalLen([f]) == f.len + TotalLen([f][1..]);
    assert TotalLen([f][1..]) == 0;
    assert Fits(f, f.len);
    if Sized(f) {
      assert Overwrite(Zeros(f.len), f) == f.data;
      assert CopyAll([f][1..], f.data) == Returned(Some(f.data));
    }
  }
}
