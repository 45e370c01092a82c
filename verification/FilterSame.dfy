/** The stutter filter that information streams pass through, twice for a subscriber. */
module FilterSame {
  import opened Basics

  /** Each item that differs from the one remembered before it. */
  function Filtered<T(==)>(state: Option<T>, s: seq<T>): seq<T>
    decreases s
  {
    if s == [] then []
    else if state == Some(s[0]) then Filtered(state, s[1..])
    else [s[0]] + Filtered(Some(s[0]), s[1..])
  }

  /** The scan: the remembered item is assigned as items pass. */
  method FilterSame<T(==)>(s: seq<T>) returns (out: seq<T>)
    ensures out == Filtered(None, s)
  {
    var state: Option<T> := None;
    out := [];
    for k := 0 to |s|
      invariant out + Filtered(state, s[k..]) == Filtered(None, s)
    {
      var x := s[k];
      assert s[k..][0] == x && s[k..][1..] == s[k + 1..];
      if state != Some(x) {
        assert out + ([x] + Filtered(Some(x), s[k + 1..])) == (out + [x]) + Filtered(Some(x), s[k + 1..]);
        state := Some(x);
        out := out + [x];
      }
    }
  }

  ghost predicate NoStutter<T>(s: seq<T>) {
    forall i, j :: 0 <= i < j < |s| && j == i + 1 ==> s[i] != s[j]
  }

  /** What comes out never repeats itself, not even what was remembered. */
  lemma {:induction false} OutputHasNoStutter<T>(state: Option<T>, s: seq<T>)
    ensures NoStutter(Filtered(state, s))
    ensures Filtered(state, s) != [] ==> Some(Filtered(state, s)[0]) != state
    decreases s
  {
    if s == [] {
    } else {
      var next := if state == Some(s[0]) then state else Some(s[0]);
      OutputHasNoStutter(next, s[1..]);
    }
  }

  lemma {:induction false} NoStutterPasses<T>(state: Option<T>, s: seq<T>)
    requires NoStutter(s) && (s != [] ==> Some(s[0]) != state)
    ensures Filtered(state, s) == s
    decreases s
  {
    if s == [] {
    } else {
      NoStutterPasses(Some(s[0]), s[1..]);
    }
  }

  /** A repetition is as good as none. */
  lemma {:induction false} RepeatDropped<T>(state: Option<T>, a: seq<T>, x: T, b: seq<T>)
    ensures Filtered(state, a + [x, x] + b) == Filtered(state, a + [x] + b)
    decreases a
  {
    var twice, once := a + [x, x] + b, a + [x] + b;
    if a == [] {
      assert twice[1..] == [x] + b && twice[1..][1..] == b && once[1..] == b;
    } else {
      assert twice[1..] == a[1..] + [x, x] + b && once[1..] == a[1..] + [x] + b;
      RepeatDropped(if state == Some(a[0]) then state else Some(a[0]), a[1..], x, b);
    }
  }

  lemma NoStutterInPart<T>(s: seq<T>, lo: nat, hi: nat)
    requires NoStutter(s) && lo <= hi <= |s|
    ensures NoStutter(s[lo..hi])
    ensures 0 < lo < hi ==> s[lo..hi][0] != s[lo - 1]
  {
    assert forall i :: 0 <= i < hi - lo ==> s[lo..hi][i] == s[lo + i];
  }

  /** A subscriber gets the current item first and then a stretch of the already
      filtered stream: of that the second filter drops the first item at most. */
  lemma {:induction false} SubscriberStream<T>(current: T, stream: seq<T>, lo: nat, hi: nat)
    requires lo <= hi <= |Filtered(None, stream)|
    ensures var seen := Filtered(None, stream)[lo..hi];
            Filtered(None, [current] + seen) ==
            if seen != [] && seen[0] == current then seen else [current] + seen
  {
    var all := Filtered(None, stream);
    var seen := all[lo..hi];
    OutputHasNoStutter(None, stream);
    NoStutterInPart(all, lo, hi);
    NoStutterInPart(seen, if seen == [] then 0 else 1, |seen|);
    assert seen[..] == seen && ([current] + seen)[1..] == seen;
    if seen != [] && seen[0] == current {
      NoStutterPasses(Some(current), seen[1..]);
      assert seen == [current] + seen[1..];
    } else {
      NoStutterPasses(Some(current), seen);
    }
  }
}
