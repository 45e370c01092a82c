/** Putting the fragments of a completed list together: every fragment is copied
    to offset pmtu * part of a zeroed buffer as long as the declared lengths add up to. */
module Assembly {
  import opened Basics
  import opened Frame

  /** What a call of the parser amounts to. A slice copy between unequal lengths panics. */
  datatype Outcome = Returned(packet: Option<Packet>) | Panicked

  function Start(i: FragItem): nat { i.pmtu * i.part }

  function End(i: FragItem): nat { Start(i) + i.len }

  predicate Covers(i: FragItem, p: int) { Start(i) <= p < End(i) }

  predicate Fits(i: FragItem, size: nat) { End(i) <= size }

  /** The declared length is the length of the data, which the parser does not check. */
  predicate Sized(i: FragItem) { |i.data| == i.len }

  function TotalLen(items: seq<FragItem>): nat {
    if items == [] then 0 else items[0].len + TotalLen(items[1..])
  }

  /** The copy loop: out of range gives up, a length mismatch panics. */
  function CopyAll(items: seq<FragItem>, buf: Packet): Outcome {
    if items == [] then
      Returned(Some(buf))
    else if !Fits(items[0], |buf|) then
      Returned(None)
    else if !Sized(items[0]) then
      Panicked
    else
      CopyAll(items[1..], Overwrite(buf, items[0]))
  }

  function Overwrite(buf: Packet, i: FragItem): (r: Packet)
    requires Fits(i, |buf|) && Sized(i)
    ensures |r| == |buf|
    ensures forall p :: 0 <= p < |buf| ==> r[p] == if Covers(i, p) then i.data[p - Start(i)] else buf[p]
  {
    buf[..Start(i)] + i.data + buf[End(i)..]
  }

  function Assembled(items: seq<FragItem>): Outcome {
    CopyAll(items, Zeros(TotalLen(items)))
  }

  method Assemble(items: seq<FragItem>) returns (r: Outcome)
    ensures r == Assembled(items)
  {
    var packet := new byte[TotalLen(items)](_ => 0);
    assert packet[..] == Zeros(TotalLen(items));
    assert items[0..] == items;
    for k := 0 to |items|
      invariant CopyAll(items[k..], packet[..]) == Assembled(items)
    {
      var i := items[k];
      assert items[k..][0] == i && items[k..][1..] == items[k + 1..];
      if End(i) > packet.Length {
        return Returned(None);
      }
      if |i.data| != i.len {
        return Panicked;
      }
      ghost var before := packet[..];
      var start := Start(i);
      forall j | 0 <= j < |i.data| {
        packet[start + j] := i.data[j];
      }
      assert packet[..] == Overwrite(before, i);
    }
    assert items[|items|..] == [];
    r := Returned(Some(packet[..]));
  }

  /** The highest-numbered fragment that covers byte p, or -1. */
  function LastCover(items: seq<FragItem>, p: int): (c: int)
    ensures -1 <= c < |items|
    ensures c >= 0 ==> Covers(items[c], p)
    ensures forall j :: c < j < |items| ==> !Covers(items[j], p)
  {
    if items == [] then
      -1
    else
      var c := LastCover(items[1..], p);
      if c >= 0 then c + 1 else if Covers(items[0], p) then 0 else -1
  }

  ghost predicate AllFit(items: seq<FragItem>, size: nat) {
    forall i :: 0 <= i < |items| ==> Fits(items[i], size)
  }

  ghost predicate AllSized(items: seq<FragItem>) {
    forall i :: 0 <= i < |items| ==> Sized(items[i])
  }

  /** The first fragment that is out of range or of the wrong size is in range but of the wrong size. */
  ghost predicate TripsOn(items: seq<FragItem>, size: nat, i: nat) {
    && i < |items|
    && Fits(items[i], size) && !Sized(items[i])
    && (forall j :: 0 <= j < i ==> Fits(items[j], size) && Sized(items[j]))
  }

  lemma {:induction false} CopyPanics(items: seq<FragItem>, buf: Packet)
    ensures CopyAll(items, buf).Panicked? <==> exists i: nat :: TripsOn(items, |buf|, i)
  {
    if items == [] {
    } else {
      var i, rest := items[0], items[1..];
      if Fits(i, |buf|) && !Sized(i) {
        assert TripsOn(items, |buf|, 0);
      } else if Fits(i, |buf|) {
        CopyPanics(rest, Overwrite(buf, i));
        if t: nat :| TripsOn(rest, |buf|, t) {
          assert TripsOn(items, |buf|, t + 1);
        }
        if t: nat :| TripsOn(items, |buf|, t) {
          assert forall k :: 0 <= k < |rest| ==> rest[k] == items[k + 1];
          assert TripsOn(rest, |buf|, t - 1);
        }
      }
    }
  }

  /** When the copy loop delivers, gives up and panics, and which fragment each
      delivered byte comes from. */
  lemma {:induction false} CopyOutcome(items: seq<FragItem>, buf: Packet)
    ensures CopyAll(items, buf).Panicked? <==> exists i: nat :: TripsOn(items, |buf|, i)
    ensures (CopyAll(items, buf).Returned? && CopyAll(items, buf).packet.Some?) <==>
            AllFit(items, |buf|) && AllSized(items)
    ensures CopyAll(items, buf).Returned? && CopyAll(items, buf).packet.Some? ==>
              var out := CopyAll(items, buf).packet.value;
              && |out| == |buf|
              && forall p :: 0 <= p < |out| ==>
                   out[p] == var c := LastCover(items, p);
                             if c >= 0 then items[c].data[p - Start(items[c])] else buf[p]
  {
    CopyPanics(items, buf);
    if items == [] {
    } else {
      var i, rest := items[0], items[1..];
      assert items == [i] + rest;
      if Fits(i, |buf|) && Sized(i) {
        CopyOutcome(rest, Overwrite(buf, i));
      }
    }
  }

  /** The bytes some fragment covers. */
  ghost function CoveredBytes(items: seq<FragItem>): set<int> {
    if items == [] then {} else Range(items[0]) + CoveredBytes(items[1..])
  }

  ghost function Range(i: FragItem): set<int> { Span(Start(i), End(i)) }

  ghost function Span(lo: int, hi: int): (r: set<int>)
    ensures forall p :: p in r <==> lo <= p < hi
    ensures lo <= hi ==> |r| == hi - lo
    decreases hi - lo
  {
    if lo < hi then Span(lo, hi - 1) + {hi - 1} else {}
  }

  ghost predicate Uncovered(items: seq<FragItem>, p: int) {
    forall i :: 0 <= i < |items| ==> !Covers(items[i], p)
  }

  ghost predicate Apart(i: FragItem, j: FragItem) {
    forall p :: Covers(i, p) ==> !Covers(j, p)
  }

  /** No byte belongs to two fragments. */
  ghost predicate Disjoint(items: seq<FragItem>) { Pairwise(items, Apart) }

  ghost predicate Pairwise<T(!new)>(s: seq<T>, r: (T, T) -> bool) {
    forall i, j :: 0 <= i < j < |s| ==> r(s[i], s[j])
  }

  lemma PairwiseCons<T(!new)>(x: T, rest: seq<T>, r: (T, T) -> bool)
    ensures Pairwise([x] + rest, r) <==> Pairwise(rest, r) && forall k :: 0 <= k < |rest| ==> r(x, rest[k])
  {
    var s := [x] + rest;
    if Pairwise(s, r) {
      forall k | 0 <= k < |rest| ensures r(x, rest[k]) {
        assert r(s[0], s[k + 1]);
      }
      forall a, b | 0 <= a < b < |rest| ensures r(rest[a], rest[b]) {
        assert r(s[a + 1], s[b + 1]);
      }
    }
  }

  lemma {:induction false} CoveredIff(items: seq<FragItem>)
    ensures forall p :: p in CoveredBytes(items) <==> !Uncovered(items, p)
  {
    if items == [] {
    } else {
      CoveredIff(items[1..]);
      assert items == [items[0]] + items[1..];
    }
  }

  lemma ApartFromOne(i: FragItem, j: FragItem)
    ensures Range(i) * Range(j) == {} <==> Apart(i, j)
  {
    assert forall p :: p in Range(i) * Range(j) <==> Covers(i, p) && Covers(j, p);
  }

  lemma MeetsNeither(r: set<int>, a: set<int>, b: set<int>)
    ensures r * (a + b) == {} <==> r * a == {} && r * b == {}
  {
    assert r * (a + b) == r * a + r * b;
  }

  /** A fragment and others share no byte exactly when it is apart from each of them. */
  lemma {:induction false} ApartFromAll(i: FragItem, rest: seq<FragItem>)
    ensures Range(i) * CoveredBytes(rest) == {} <==> forall k :: 0 <= k < |rest| ==> Apart(i, rest[k])
  {
    if rest == [] {
    } else {
      ApartFromAll(i, rest[1..]);
      ApartFromOne(i, rest[0]);
      MeetsNeither(Range(i), Range(rest[0]), CoveredBytes(rest[1..]));
      assert forall k :: 0 < k < |rest| ==> rest[k] == rest[1..][k - 1];
    }
  }

  lemma {:induction false} DisjointCons(i: FragItem, rest: seq<FragItem>)
    ensures Disjoint([i] + rest) <==> Disjoint(rest) && Range(i) * CoveredBytes(rest) == {}
  {
    ApartFromAll(i, rest);
    PairwiseCons(i, rest, Apart);
  }

  /** Covered bytes number at most the sum of the lengths, and exactly that many
      when the ranges are disjoint. */
  lemma {:induction false} CoverCount(items: seq<FragItem>)
    ensures |CoveredBytes(items)| <= TotalLen(items)
    ensures |CoveredBytes(items)| == TotalLen(items) <==> Disjoint(items)
  {
    if items == [] {
    } else {
      CoverCount(items[1..]);
      assert items == [items[0]] + items[1..];
      DisjointCons(items[0], items[1..]);
      var r, c := Range(items[0]), CoveredBytes(items[1..]);
      assert |r + c| == |r| + |c| - |r * c|;
    }
  }

  lemma {:induction false} CoveredInRange(items: seq<FragItem>, size: nat)
    requires AllFit(items, size)
    ensures CoveredBytes(items) <= Span(0, size)
  {
    if items == [] {
    } else {
      CoveredInRange(items[1..], size);
      assert Fits(items[0], size);
    }
  }

  ghost predicate NoGap(items: seq<FragItem>) {
    forall p :: 0 <= p < TotalLen(items) ==> !Uncovered(items, p)
  }

  /** Because the buffer is as long as the declared lengths add up to, fragments
      that all fit leave no zero-filled gap exactly when no two of them overlap. */
  lemma {:induction false} NoGapIffDisjoint(items: seq<FragItem>)
    requires AllFit(items, TotalLen(items))
    ensures NoGap(items) <==> Disjoint(items)
  {
    var covered, all := CoveredBytes(items), Span(0, TotalLen(items));
    CoverCount(items);
    CoveredIff(items);
    CoveredInRange(items, TotalLen(items));
    SubsetSize(covered, all);
    if NoGap(items) {
      forall p | p in all ensures p in covered {
        assert !Uncovered(items, p);
      }
    }
    if covered == all {
      forall p | 0 <= p < TotalLen(items) ensures !Uncovered(items, p) {
        assert p in all;
      }
    }
  }

  /** Byte p belongs to fragment c and to no other. */
  ghost predicate BelongsTo(items: seq<FragItem>, p: int, c: int) {
    && 0 <= c < |items| && Covers(items[c], p)
    && forall i :: 0 <= i < |items| && i != c ==> !Covers(items[i], p)
  }

  lemma {:induction false} DisjointOwner(items: seq<FragItem>, p: int)
    requires Disjoint(items) && !Uncovered(items, p)
    ensures BelongsTo(items, p, LastCover(items, p))
  {
    var c := LastCover(items, p);
    assert Covers(items[c], p);
    forall i | 0 <= i < |items| && i != c ensures !Covers(items[i], p) {
      assert if i < c then Apart(items[i], items[c]) else Apart(items[c], items[i]);
    }
  }

  /** Tiling without a common pmtu: disjoint fragments in range are delivered,
      and every byte of the packet is the byte of the one fragment covering it. */
  lemma {:induction false} Tiling(items: seq<FragItem>, p: nat)
    requires AllFit(items, TotalLen(items)) && AllSized(items) && Disjoint(items)
    ensures Assembled(items).Returned? && Assembled(items).packet.Some?
    ensures |Assembled(items).packet.value| == TotalLen(items)
    ensures p < TotalLen(items) ==>
              exists c ::
                BelongsTo(items, p, c) && Assembled(items).packet.value[p] == items[c].data[p - Start(items[c])]
  {
    CopyOutcome(items, Zeros(TotalLen(items)));
    NoGapIffDisjoint(items);
    if p < TotalLen(items) {
      DisjointOwner(items, p);
    }
  }

  function Flatten(items: seq<FragItem>): Packet {
    if items == [] then [] else items[0].data + Flatten(items[1..])
  }

  /** Part i of the list, cut at a common pmtu m, with an honest length of at most m. */
  ghost predicate CutAt(items: seq<FragItem>, m: u16, first: nat) {
    forall i :: 0 <= i < |items| ==>
      items[i].part == first + i && items[i].pmtu == m && Sized(items[i]) && items[i].len <= m
  }

  ghost predicate AllButLastFull(items: seq<FragItem>, m: u16) {
    forall i :: 0 <= i < |items| - 1 ==> items[i].len == m
  }

  lemma {:induction false} TotalLenBound(items: seq<FragItem>, m: u16)
    requires forall i :: 0 <= i < |items| ==> items[i].len <= m
    ensures items != [] ==>
              && TotalLen(items) <= m * (|items| - 1) + items[|items| - 1].len
              && (TotalLen(items) == m * (|items| - 1) + items[|items| - 1].len <==> AllButLastFull(items, m))
  {
    if items == [] {
    } else {
      TotalLenBound(items[1..], m);
      assert items == [items[0]] + items[1..];
      if |items| > 1 {
        assert m * (|items| - 1) == m + m * (|items[1..]| - 1);
        assert AllButLastFull(items, m) <==> items[0].len == m && AllButLastFull(items[1..], m);
      }
    }
  }

  /** A fragment that starts where the finished part of the buffer ends. */
  lemma {:induction false} CopyNext(i: FragItem, rest: seq<FragItem>, done: Packet, tail: Packet)
    requires Start(i) == |done| && Sized(i) && i.len <= |tail|
    ensures CopyAll([i] + rest, done + tail) == CopyAll(rest, (done + i.data) + tail[i.len..])
  {
    var items, buf := [i] + rest, done + tail;
    assert items[1..] == rest;
    assert Overwrite(buf, i) == (done + i.data) + tail[i.len..];
  }

  lemma {:induction false} CopyFullParts(items: seq<FragItem>, m: u16, first: nat, done: Packet, tail: Packet)
    requires CutAt(items, m, first) && AllButLastFull(items, m)
    requires items != [] ==> |done| == m * first
    requires |tail| == TotalLen(items)
    ensures CopyAll(items, done + tail) == Returned(Some(done + Flatten(items)))
  {
    if items == [] {
      assert done + tail == done + Flatten(items);
    } else {
      var i, rest := items[0], items[1..];
      assert items == [i] + rest && i.part == first;
      CopyNext(i, rest, done, tail);
      MulStep(m, first + 1);
      assert forall k :: 0 <= k < |rest| ==> rest[k] == items[k + 1];
      CopyFullParts(rest, m, first + 1, done + i.data, tail[i.len..]);
      assert done + i.data + Flatten(rest) == done + (i.data + Flatten(rest));
    }
  }

  /** Exact fit: with a common pmtu m and honest lengths of at most m, a complete
      list is delivered if and only if every fragment but the last is full, and
      the packet is then the data in part order; otherwise nothing is delivered. */
  lemma {:induction false} ExactFit(items: seq<FragItem>, m: u16)
    requires items != [] && CutAt(items, m, 0)
    ensures Assembled(items) ==
            if AllButLastFull(items, m) then Returned(Some(Flatten(items))) else Returned(None)
  {
    var size := TotalLen(items);
    TotalLenBound(items, m);
    if AllButLastFull(items, m) {
      assert Zeros(size) == [] + Zeros(size);
      CopyFullParts(items, m, 0, [], Zeros(size));
      assert [] + Flatten(items) == Flatten(items);
    } else {
      CopyOutcome(items, Zeros(size));
      assert !Fits(items[|items| - 1], size);
    }
  }

  /** A packet can be cut at m into n parts of which all but the last are full. */
  ghost predicate Splits(packet: Packet, m: u16, n: nat) {
    && 1 <= n <= 255
    && m * (n - 1) <= |packet| <= m * n
  }

  lemma SplitsTail(packet: Packet, m: u16, n: nat)
    requires Splits(packet, m, n) && n > 1
    ensures m <= |packet| && Splits(packet[m..], m, n - 1)
  {
    MulStep(m, n);
    MulStep(m, n - 1);
  }

  lemma MulStep(m: nat, n: nat)
    requires n > 0
    ensures m * n == m + m * (n - 1)
    ensures m * (n - 1) >= 0
  {
  }

  /** How a client cuts a packet: n parts of m bytes, the last one possibly shorter. */
  ghost function Cut(packet: Packet, m: u16, n: nat): (parts: seq<Packet>)
    requires Splits(packet, m, n)
    ensures |parts| == n
    ensures forall i :: 0 <= i < n ==> |parts[i]| <= m
    ensures forall i :: 0 <= i < n - 1 ==> |parts[i]| == m
  {
    if n == 1 then
      [packet]
    else
      SplitsTail(packet, m, n);
      [packet[..m]] + Cut(packet[m..], m, n - 1)
  }

  lemma {:induction false} CutFlattens(packet: Packet, m: u16, n: nat, items: seq<FragItem>)
    requires Splits(packet, m, n) && |items| == n
    requires forall i :: 0 <= i < n ==> items[i].data == Cut(packet, m, n)[i]
    ensures Flatten(items) == packet
  {
    var rest := items[1..];
    if n == 1 {
      assert Flatten(rest) == [];
    } else {
      SplitsTail(packet, m, n);
      assert forall i :: 0 <= i < n - 1 ==> rest[i] == items[i + 1];
      CutFlattens(packet[m..], m, n - 1, rest);
    }
  }
}
