/** The zero-run codec of the LAN protocol. A zero byte on the wire is followed by
    a count of further zeros; every other byte stands for itself. */
module ZeroRunCodec {
  import opened Basics

  // ---- Grammar of the format ----

  datatype Token = Literal(b: byte) | ZeroRun(more: byte)

  ghost predicate IsToken(t: Token) { t.Literal? ==> t.b != 0 }

  ghost predicate AreTokens(ts: seq<Token>) {
    forall i :: 0 <= i < |ts| ==> IsToken(ts[i])
  }

  function Wire(t: Token): Packet {
    match t
    case Literal(b) => [b]
    case ZeroRun(more) => [0, more]
  }

  function Meaning(t: Token): Packet {
    match t
    case Literal(b) => [b]
    case ZeroRun(more) => Zeros(1 + more)
  }

  /** The compressed text of a token sequence. */
  function Serial(ts: seq<Token>): Packet {
    if ts == [] then [] else Wire(ts[0]) + Serial(ts[1..])
  }

  /** What a token sequence expands to. */
  function Expand(ts: seq<Token>): Packet {
    if ts == [] then [] else Meaning(ts[0]) + Expand(ts[1..])
  }

  /** The last token stands for a single zero. */
  ghost predicate LoneAtEnd(ts: seq<Token>) {
    ts != [] && ts[|ts| - 1] == ZeroRun(0)
  }

  // ---- The text as the loop sees it: any byte sequence, possibly cut in a pair ----

  /** The text ends between a zero and its count. */
  predicate Dangling(s: Packet) {
    if s == [] then false
    else if s[0] != 0 then Dangling(s[1..])
    else if |s| == 1 then true
    else Dangling(s[2..])
  }

  /** The bytes a text has produced so far; an unfinished pair has produced its zero. */
  function Emitted(s: Packet): Packet {
    if s == [] then []
    else if s[0] != 0 then [s[0]] + Emitted(s[1..])
    else if |s| == 1 then [0]
    else Zeros(s[1] as int + 1) + Emitted(s[2..])
  }

  /** The text ends with the pair for a single zero. */
  predicate EndsInLoneZero(s: Packet) {
    if s == [] then false
    else if s[0] != 0 then EndsInLoneZero(s[1..])
    else if |s| == 1 then false
    else if |s| == 2 then s[1] == 0
    else EndsInLoneZero(s[2..])
  }

  lemma {:induction false} OneMoreByte(s: Packet, b: byte)
    ensures Dangling(s + [b]) == (!Dangling(s) && b == 0)
    ensures Emitted(s + [b]) == Emitted(s) + if Dangling(s) then Zeros(b) else [b]
    ensures EndsInLoneZero(s + [b]) == (Dangling(s) && b == 0)
  {
    var t := s + [b];
    if s == [] {
      assert t[1..] == [];
    } else if s[0] != 0 {
      assert t[1..] == s[1..] + [b];
      OneMoreByte(s[1..], b);
    } else if |s| == 1 {
      assert t[2..] == [];
      assert Zeros(1 + b) == [0] + Zeros(b);
    } else {
      assert t[2..] == s[2..] + [b];
      OneMoreByte(s[2..], b);
    }
  }

  /** Reading on never takes output back, and a byte after a finished token adds to it. */
  lemma {:induction false} ReadingOn(s: Packet, rest: Packet)
    ensures |Emitted(s)| <= |Emitted(s + rest)|
    ensures !Dangling(s) && rest != [] ==> |Emitted(s)| < |Emitted(s + rest)|
    decreases rest
  {
    if rest == [] {
      assert s + rest == s;
    } else {
      assert s + rest == (s + [rest[0]]) + rest[1..];
      OneMoreByte(s, rest[0]);
      ReadingOn(s + [rest[0]], rest[1..]);
    }
  }

  /** When the decoder accepts: no pair is cut, the expansion fits, and a final pair
      for a single zero does not end exactly at the end of the buffer. */
  predicate Accepted(input: Packet, size: nat) {
    && !Dangling(input)
    && |Emitted(input)| <= size
    && !(|Emitted(input)| == size && EndsInLoneZero(input))
  }

  /** The input is the text of ts, and ts fits the buffer as the decoder requires. */
  ghost predicate Decodes(input: Packet, size: nat, ts: seq<Token>) {
    && AreTokens(ts) && Serial(ts) == input
    && |Expand(ts)| <= size
    && !(|Expand(ts)| == size && LoneAtEnd(ts))
  }

  function Tokens(s: Packet): (ts: seq<Token>)
    requires !Dangling(s)
  {
    if s == [] then []
    else if s[0] != 0 then [Literal(s[0])] + Tokens(s[1..])
    else [ZeroRun(s[1])] + Tokens(s[2..])
  }

  /** A text without a cut pair is the text of its tokens. */
  lemma {:induction false} TokensOfText(s: Packet)
    requires !Dangling(s)
    ensures AreTokens(Tokens(s)) && Serial(Tokens(s)) == s
  {
    if s == [] {
    } else if s[0] != 0 {
      TokensOfText(s[1..]);
    } else {
      TokensOfText(s[2..]);
    }
  }

  /** One token in front of a text. */
  lemma {:induction false} FirstToken(t: Token, rest: Packet)
    requires IsToken(t)
    ensures var s := Wire(t) + rest;
            && Dangling(s) == Dangling(rest)
            && (!Dangling(rest) ==> Tokens(s) == [t] + Tokens(rest))
            && Emitted(s) == Meaning(t) + Emitted(rest)
            && EndsInLoneZero(s) == (if rest == [] then t == ZeroRun(0) else EndsInLoneZero(rest))
  {
    var s := Wire(t) + rest;
    assert s[|Wire(t)|..] == rest;
  }

  /** The text of a token sequence has no cut pair, determines the tokens, and is
      read as they mean. */
  lemma {:induction false} TextOfTokens(ts: seq<Token>)
    requires AreTokens(ts)
    ensures !Dangling(Serial(ts)) && Tokens(Serial(ts)) == ts
    ensures Emitted(Serial(ts)) == Expand(ts)
    ensures EndsInLoneZero(Serial(ts)) <==> LoneAtEnd(ts)
  {
    if ts == [] {
    } else {
      var rest := ts[1..];
      TextOfTokens(rest);
      assert IsToken(ts[0]) && ts == [ts[0]] + rest;
      FirstToken(ts[0], Serial(rest));
      if rest != [] { assert |Serial(rest)| >= |Wire(rest[0])|; }
    }
  }

  lemma {:induction false} ExpansionSize(ts: seq<Token>)
    ensures |Expand(ts)| <= 128 * |Serial(ts)| && |Serial(ts)| <= 2 * |Expand(ts)|
  {
    if ts == [] {
    } else {
      ExpansionSize(ts[1..]);
    }
  }

  /** The decoder's condition, said of tokens. */
  lemma {:induction false} AcceptedIffDecodes(input: Packet, size: nat)
    ensures Accepted(input, size) <==> exists ts :: Decodes(input, size, ts)
    ensures forall ts :: Decodes(input, size, ts) ==> Expand(ts) == Emitted(input)
    ensures Accepted(input, size) ==> |input| <= 2 * |Emitted(input)| && |Emitted(input)| <= 128 * |input|
  {
    if !Dangling(input) {
      TokensOfText(input);
      TextOfTokens(Tokens(input));
      ExpansionSize(Tokens(input));
      assert Accepted(input, size) ==> Decodes(input, size, Tokens(input));
    }
    forall ts | Decodes(input, size, ts)
      ensures Accepted(input, size) && Expand(ts) == Emitted(input)
    {
      TextOfTokens(ts);
    }
  }

  /** The buffer after the first so many bytes of the text have been worked in. */
  ghost predicate LeftAfter(input: Packet, read: nat, before: Packet, after: Packet) {
    && read <= |input| && |after| == |before|
    && var out := Emitted(input[..read]);
       |out| <= |before| && after == out + before[|out|..]
  }

  /** The bytes that text position k adds. */
  function Added(input: Packet, k: nat): Packet
    requires k < |input|
  {
    if Dangling(input[..k]) then Zeros(input[k]) else [input[k]]
  }

  /** What reading one more byte means for the scan, and for the verdict on the whole text. */
  lemma ReadByte(input: Packet, k: nat, size: nat)
    requires k < |input|
    ensures Dangling(input[..k + 1]) == (!Dangling(input[..k]) && input[k] == 0)
    ensures Emitted(input[..k + 1]) == Emitted(input[..k]) + Added(input, k)
    ensures EndsInLoneZero(input[..k + 1]) == (Dangling(input[..k]) && input[k] == 0)
    ensures |Emitted(input[..k])| == size || |Emitted(input[..k + 1])| > size ==> !Accepted(input, size)
  {
    var was, i, rest := input[..k], input[k], input[k + 1..];
    assert input[..k + 1] == was + [i] && input == input[..k + 1] + rest;
    OneMoreByte(was, i);
    ReadingOn(input[..k + 1], rest);
    if rest == [] { assert input == input[..k + 1]; }
  }

  /** Where the loop stands before reading byte k. */
  ghost predicate Scanned(input: Packet, k: nat, leadZero: bool, pos: nat, before: Packet, now: Packet)
  {
    && k <= |input|
    && leadZero == Dangling(input[..k])
    && |now| == |before|
    && pos == |Emitted(input[..k])| <= |now|
    && LeftAfter(input, k, before, now)
    && (EndsInLoneZero(input[..k]) ==> pos < |now|)
  }

  /** What byte k adds in that position. */
  function Output(leadZero: bool, i: byte): Packet {
    if leadZero then Zeros(i) else [i]
  }

  lemma ScanStep(input: Packet, k: nat, leadZero: bool, pos: nat, before: Packet, now: Packet, next: Packet)
    requires k < |input| && Scanned(input, k, leadZero, pos, before, now)
    requires pos < |now| && pos + |Output(leadZero, input[k])| <= |now|
    requires next == now[..pos] + Output(leadZero, input[k]) + now[pos + |Output(leadZero, input[k])|..]
    ensures Scanned(input, k + 1, !leadZero && input[k] == 0, pos + |Output(leadZero, input[k])|, before, next)
  {
    ReadByte(input, k, |now|);
    assert Emitted(input[..k]) == now[..pos];
  }

  /** What the decoder promises about its result and the buffer it leaves. */
  ghost predicate Promise(input: Packet, before: Packet, r: Option<nat>, after: Packet) {
    && r == (if Accepted(input, |before|) then Some(|Emitted(input)|) else None)
    && (r.Some? ==> LeftAfter(input, |input|, before, after))
    && (r.None? ==> exists read: nat :: LeftAfter(input, read, before, after))
  }

  lemma ScanRefused(input: Packet, k: nat, leadZero: bool, pos: nat, before: Packet, now: Packet)
    requires k < |input| && Scanned(input, k, leadZero, pos, before, now)
    requires pos == |now| || pos + |Output(leadZero, input[k])| > |now|
    ensures Promise(input, before, None, now)
  {
    ReadByte(input, k, |now|);
  }

  lemma ScanDone(input: Packet, leadZero: bool, pos: nat, before: Packet, now: Packet)
    requires Scanned(input, |input|, leadZero, pos, before, now)
    ensures Promise(input, before, if leadZero then None else Some(pos), now)
  {
    assert input[..|input|] == input;
  }

  method FillZeros(output: array<byte>, pos: nat, size: nat)
    requires pos + size <= output.Length
    modifies output
    ensures output[..] == old(output[..pos]) + Zeros(size) + old(output[pos + size..])
  {
    forall j | 0 <= j < size {
      output[pos + j] := 0;
    }
  }

  method Store(output: array<byte>, pos: nat, i: byte)
    requires pos < output.Length
    modifies output
    ensures output[..] == old(output[..pos]) + [i] + old(output[pos + 1..])
  {
    output[pos] := i;
  }

  /** The loop body: byte i is worked in at pos, if it fits. The room is tested even
      before a count, which may be of no zeros at all. */
  method TakeByte(output: array<byte>, leadZero: bool, pos: nat, i: byte) returns (fits: bool)
    modifies output
    ensures fits == (pos < output.Length && pos + |Output(leadZero, i)| <= output.Length)
    ensures !fits ==> output[..] == old(output[..])
    ensures fits ==>
              output[..] == old(output[..pos]) + Output(leadZero, i) + old(output[pos + |Output(leadZero, i)|..])
  {
    if pos >= output.Length {
      return false;
    }
    if leadZero {
      if pos + i > output.Length {
        return false;
      }
      FillZeros(output, pos, i);
    } else {
      Store(output, pos, i);
    }
    fits := true;
  }

  /** decompress: the whole output buffer is given, and only its front is written.
      A failed call leaves what the bytes read so far had produced. */
  method Decompress(input: Packet, output: array<byte>) returns (r: Option<nat>)
    modifies output
    ensures Promise(input, old(output[..]), r, output[..])
  {
    ghost var before := output[..];
    var leadZero, pos: nat := false, 0;
    for k := 0 to |input|
      invariant Scanned(input, k, leadZero, pos, before, output[..])
    {
      var i := input[k];
      ghost var now := output[..];
      var fits := TakeByte(output, leadZero, pos, i);
      if !fits {
        ScanRefused(input, k, leadZero, pos, before, now);
        return None;
      }
      ScanStep(input, k, leadZero, pos, before, now, output[..]);
      if leadZero {
        pos, leadZero := pos + i, false;
      } else {
        pos, leadZero := pos + 1, i == 0;
      }
    }
    ScanDone(input, leadZero, pos, before, output[..]);
    r := if leadZero then None else Some(pos);
  }

  // ---- Round trip ----

  function LeadingZeros(x: Packet): (n: nat)
    ensures n <= |x|
    ensures forall i :: 0 <= i < n ==> x[i] == 0
    ensures n < |x| ==> x[n] != 0
  {
    if x == [] || x[0] != 0 then 0 else 1 + LeadingZeros(x[1..])
  }

  function TrailingZeros(x: Packet): (n: nat)
    ensures n <= |x|
  {
    if x == [] || x[|x| - 1] != 0 then 0 else 1 + TrailingZeros(x[..|x| - 1])
  }

  /** A greedy encoder, as a specification: zero runs of up to 256. */
  function Compress(x: Packet): seq<Token> {
    if x == [] then []
    else if x[0] != 0 then [Literal(x[0])] + Compress(x[1..])
    else
      var run := Min(LeadingZeros(x), 256);
      [ZeroRun(run - 1)] + Compress(x[run..])
  }

  lemma {:induction false} CompressExpands(x: Packet)
    ensures AreTokens(Compress(x)) && Expand(Compress(x)) == x
  {
    if x == [] {
    } else if x[0] != 0 {
      CompressExpands(x[1..]);
    } else {
      var run := Min(LeadingZeros(x), 256);
      CompressExpands(x[run..]);
      assert x[..run] == Zeros(run);
    }
  }

  lemma {:induction false} TrailingOfTail(x: Packet, k: nat)
    requires k <= |x|
    ensures TrailingZeros(x[k..]) == Min(TrailingZeros(x), |x| - k)
  {
    if k < |x| && x[|x| - 1] == 0 {
      var y := x[..|x| - 1];
      TrailingOfTail(y, k);
      assert x[k..][..|x| - k - 1] == y[k..];
    }
  }

  lemma {:induction false} TrailingBelow(x: Packet, i: nat)
    requires i < |x| && x[i] != 0
    ensures TrailingZeros(x) < |x| - i
  {
    if i < |x| - 1 && x[|x| - 1] == 0 {
      TrailingBelow(x[..|x| - 1], i);
    }
  }

  lemma {:induction false} AllZero(x: Packet)
    requires LeadingZeros(x) == |x|
    ensures TrailingZeros(x) == |x|
  {
    if x == [] {
    } else {
      var y := x[..|x| - 1];
      assert forall i :: 0 <= i < |y| ==> y[i] == x[i] == 0;
      AllZero(y);
    }
  }

  /** Taking runs of 256 off n zeros leaves a single one. */
  predicate LeavesOne(n: nat) {
    if n <= 256 then n == 1 else LeavesOne(n - 256)
  }

  lemma {:induction false} LeavesOneModulo(n: nat)
    ensures LeavesOne(n) <==> n % 256 == 1
  {
    if n <= 256 {
    } else {
      LeavesOneModulo(n - 256);
      assert (n - 256) % 256 == n % 256;
    }
  }

  lemma LoneAtEndOfCons(t: Token, ts: seq<Token>)
    ensures LoneAtEnd([t] + ts) <==> if ts == [] then t == ZeroRun(0) else LoneAtEnd(ts)
  {
  }

  /** Taking the first run off leaves the question about the last one. */
  lemma {:induction false} TrailingAfterRun(x: Packet, run: nat)
    requires x != [] && x[0] == 0 && run == Min(LeadingZeros(x), 256)
    ensures x[run..] == [] ==> (LeavesOne(TrailingZeros(x)) <==> run == 1)
    ensures x[run..] != [] ==> (LeavesOne(TrailingZeros(x[run..])) <==> LeavesOne(TrailingZeros(x)))
  {
    TrailingOfTail(x, run);
    if LeadingZeros(x) < |x| {
      TrailingBelow(x, LeadingZeros(x));
    } else {
      AllZero(x);
    }
  }

  lemma {:induction false} LoneAtEndOfCompress(x: Packet)
    ensures LoneAtEnd(Compress(x)) <==> LeavesOne(TrailingZeros(x))
  {
    if x == [] {
    } else if x[0] != 0 {
      LoneAtEndOfCompress(x[1..]);
      LoneAtEndOfCons(Literal(x[0]), Compress(x[1..]));
      TrailingOfTail(x, 1);
      TrailingBelow(x, 0);
    } else {
      var run := Min(LeadingZeros(x), 256);
      LoneAtEndOfCompress(x[run..]);
      TrailingAfterRun(x, run);
      LoneAtEndOfCons(ZeroRun(run - 1), Compress(x[run..]));
    }
  }

  /** The greedy encoding ends in the pair for a single zero exactly when the
      trailing zero run has length 1 modulo 256. */
  lemma {:induction false} CompressEndsInLoneZero(x: Packet)
    ensures LoneAtEnd(Compress(x)) <==> TrailingZeros(x) % 256 == 1
  {
    LoneAtEndOfCompress(x);
    LeavesOneModulo(TrailingZeros(x));
  }

  /** Round trip: the decoder recovers every x from its greedy encoding in any buffer
      longer than x; in a buffer of exactly the size of x it does so if and only if
      the trailing zero run of x is not of length 1 modulo 256. */
  lemma {:induction false} RoundTrip(x: Packet, size: nat)
    ensures Accepted(Serial(Compress(x)), size) <==>
            |x| < size || (|x| == size && TrailingZeros(x) % 256 != 1)
    ensures Emitted(Serial(Compress(x))) == x
  {
    CompressExpands(x);
    TextOfTokens(Compress(x));
    CompressEndsInLoneZero(x);
  }

  // ---- Texts other than the greedy one ----

  lemma {:induction false} ExpandAppend(ts: seq<Token>, t: Token)
    ensures Expand(ts + [t]) == Expand(ts) + Meaning(t)
  {
    if ts == [] {
      assert [t][1..] == [];
    } else {
      assert (ts + [t])[1..] == ts[1..] + [t];
      ExpandAppend(ts[1..], t);
    }
  }

  /** A sequence that ends in exactly one zero can only end in the pair for a single zero. */
  lemma {:induction false} OneZeroEndsInLoneZero(ts: seq<Token>)
    requires AreTokens(ts) && TrailingZeros(Expand(ts)) == 1
    ensures LoneAtEnd(ts)
  {
    var x, n := Expand(ts), |ts| - 1;
    assert ts == ts[..n] + [ts[n]] && IsToken(ts[n]);
    ExpandAppend(ts[..n], ts[n]);
  }

  lemma {:induction false} LastTwo(x: Packet)
    requires TrailingZeros(x) >= 2
    ensures |x| >= 2 && x == x[..|x| - 2] + Zeros(2)
  {
    assert x[|x| - 1] == 0 && x[..|x| - 1][|x| - 2] == 0;
  }

  /** Two zeros at the end can be kept for a pair of their own. */
  lemma {:induction false} PairForLastTwo(x: Packet)
    requires TrailingZeros(x) >= 2
    ensures exists ts :: Decodes(Serial(ts), |x|, ts) && Expand(ts) == x
  {
    LastTwo(x);
    var front := x[..|x| - 2];
    var ts := Compress(front) + [ZeroRun(1)];
    CompressExpands(front);
    ExpandAppend(Compress(front), ZeroRun(1));
    assert Decodes(Serial(ts), |x|, ts);
  }

  /** Some text is decoded to x in a buffer of exactly the size of x if and only if x does
      not end in exactly one zero. The greedy encoder misses texts only for longer runs. */
  lemma {:induction false} SomeTextDecodes(x: Packet)
    ensures (exists ts :: Decodes(Serial(ts), |x|, ts) && Expand(ts) == x) <==> TrailingZeros(x) != 1
  {
    if TrailingZeros(x) == 0 {
      CompressExpands(x);
      CompressEndsInLoneZero(x);
      assert Decodes(Serial(Compress(x)), |x|, Compress(x));
    } else if TrailingZeros(x) >= 2 {
      PairForLastTwo(x);
    } else {
      forall ts | AreTokens(ts) && Expand(ts) == x ensures LoneAtEnd(ts) {
        OneZeroEndsInLoneZero(ts);
      }
    }
  }

  // ---- Worked examples ----

  lemma {:induction false} SerialCons(t: Token, ts: seq<Token>)
    ensures Serial([t] + ts) == Wire(t) + Serial(ts) && Expand([t] + ts) == Meaning(t) + Expand(ts)
  {
    assert ([t] + ts)[1..] == ts;
  }

  /** A literal, a run of four, a literal and a lone zero: accepted in a buffer longer than
      the seven bytes they stand for, in one of just their number not. */
  lemma MixedExample(size: nat)
    ensures Accepted([1, 0, 3, 3, 0, 0], size) <==> size > 7
    ensures Emitted([1, 0, 3, 3, 0, 0]) == [1, 0, 0, 0, 0, 3, 0]
  {
    var c, d := [Literal(3)] + [ZeroRun(0)], [ZeroRun(3)] + ([Literal(3)] + [ZeroRun(0)]);
    var ts := [Literal(1)] + d;
    assert [ZeroRun(0)] == [ZeroRun(0)] + [];
    SerialCons(ZeroRun(0), []);
    SerialCons(Literal(3), [ZeroRun(0)]);
    SerialCons(ZeroRun(3), c);
    SerialCons(Literal(1), d);
    assert Serial(ts) == [1, 0, 3, 3, 0, 0];
    assert Expand(ts) == [1, 0, 0, 0, 0, 3, 0];
    TextOfTokens(ts);
  }

  /** A zero without its count is refused, and a full pair of bytes stands for 256 zeros. */
  lemma PairExamples(size: nat)
    ensures !Accepted([0], size)
    ensures Accepted([0, 255], size) <==> size >= 256
    ensures Emitted([0, 255]) == Zeros(256)
  {
    assert [ZeroRun(255)] == [ZeroRun(255)] + [];
    SerialCons(ZeroRun(255), []);
    TextOfTokens([ZeroRun(255)]);
    assert Serial([ZeroRun(255)]) == [0, 255];
  }
}
