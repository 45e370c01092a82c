/** Which datagrams make a plugin panic, told of the fragments they carry. */
module Crashing {
  import opened Basics
  import opened Frame
  import opened Assembly
  import opened FragRuns
  import opened FragAttempts
  import opened Plugins

  predicate IsFragment(d: Packet) {
    Parse(d).Ok? && Parse(d).value.Ipv4Frag?
  }

  /** A plugin that has seen the datagrams ds panics on d. */
  predicate Crashes(ds: seq<Packet>, d: Packet) {
    Inspect(CacheAfter(EMPTY, ds), d).1.Crash?
  }

  /** None of the datagrams makes the parser panic. */
  ghost predicate NoneCrashes(ds: seq<Packet>) {
    forall n :: 0 <= n < |ds| ==> !Crashes(ds[..n], ds[n])
  }

  lemma NoneCrashesSnoc(ds: seq<Packet>, d: Packet)
    ensures NoneCrashes(ds + [d]) <==> NoneCrashes(ds) && !Crashes(ds, d)
  {
    var all, n := ds + [d], |ds|;
    assert all[..n] == ds && all[n] == d;
    assert forall k :: 0 <= k < n ==> all[..k] == ds[..k] && all[k] == ds[k];
  }

  /** No fragment trips the copy loop. */
  ghost predicate NoneTrips(frames: seq<FragItem>) {
    forall t: nat :: t < |frames| ==> !Trips(frames, t)
  }

  /** Datagram n makes a plugin panic exactly when it is a fragment that trips. */
  lemma CrashesIff(ds: seq<Packet>, n: nat)
    requires n < |ds|
    ensures Crashes(ds[..n], ds[n]) <==> IsFragment(ds[n]) && Trips(Fragments(ds), |Fragments(ds[..n])|)
  {
    CacheSeesFragments(EMPTY, ds[..n]);
    if IsFragment(ds[n]) {
      FragmentNumber(ds, n, |Fragments(ds[..n])|);
      PanicsIff(Fragments(ds), |Fragments(ds[..n])|);
    }
  }

  /** Fragment t came in a datagram. */
  lemma {:induction false} FragmentCame(ds: seq<Packet>, t: nat)
    requires t < |Fragments(ds)|
    ensures exists n: nat :: n < |ds| && IsFragment(ds[n]) && |Fragments(ds[..n])| == t
  {
    var last := |ds| - 1;
    var prev := ds[..last];
    if t < |Fragments(prev)| {
      FragmentCame(prev, t);
      var n: nat :| n < |prev| && IsFragment(prev[n]) && |Fragments(prev[..n])| == t;
      assert prev[..n] == ds[..n];
    } else {
      assert IsFragment(ds[last]) && |Fragments(ds[..last])| == t;
    }
  }

  /** The datagrams are harmless exactly when no fragment among them trips. */
  lemma NoneCrashesIff(ds: seq<Packet>)
    ensures NoneCrashes(ds) <==> NoneTrips(Fragments(ds))
  {
    if NoneCrashes(ds) {
      forall t: nat | t < |Fragments(ds)| ensures !Trips(Fragments(ds), t) {
        FragmentCame(ds, t);
        var n: nat :| n < |ds| && IsFragment(ds[n]) && |Fragments(ds[..n])| == t;
        CrashesIff(ds, n);
      }
    }
    if NoneTrips(Fragments(ds)) {
      forall n | 0 <= n < |ds| ensures !Crashes(ds[..n], ds[n]) {
        CrashesIff(ds, n);
        if IsFragment(ds[n]) { FragmentNumber(ds, n, |Fragments(ds[..n])|); }
      }
    }
  }

  /** Fragments of the lengths they declare never trip. */
  lemma HonestNeverTrips(frames: seq<FragItem>)
    requires AllSized(frames)
    ensures NoneTrips(frames)
  {
    forall t: nat | t < |frames| ensures !Trips(frames, t) {
      HonestLengthsNeverPanic(frames, t);
      PanicsIff(frames, t);
    }
  }
}
