/** Blocking rules and their text form, such as "tcp:80". */
module RuleText {
  import opened Basics
  import opened Decimal

  datatype Protocol = Tcp | Udp
  datatype Rule = Rule(protocol: Protocol, dstPort: u16)
  datatype RuleParseError = InvalidProtocol | FormatError

  function Name(p: Protocol): string {
    match p
    case Tcp => "tcp"
    case Udp => "udp"
  }

  function LowerChar(c: char): char {
    if 'A' <= c <= 'Z' then c - 'A' + 'a' else c
  }

  function Lower(s: string): (l: string)
    ensures |l| == |s|
    ensures forall i :: 0 <= i < |s| ==> l[i] == LowerChar(s[i])
  {
    seq(|s|, i requires 0 <= i < |s| => LowerChar(s[i]))
  }

  function ParseProtocol(s: string): Result<Protocol, RuleParseError> {
    if Lower(s) == "tcp" then Ok(Tcp)
    else if Lower(s) == "udp" then Ok(Udp)
    else Err(InvalidProtocol)
  }

  /** The optional plus sign. */
  function SignOf(s: string): (sign: string)
    ensures sign <= s && (sign == "" || sign == "+")
  {
    if s != "" && s[0] == '+' then s[..1] else ""
  }

  /** Reading a 16-bit number: an optional plus sign, then digits, with no overflow. */
  function ParsePort(s: string): Result<u16, RuleParseError> {
    var digits := s[|SignOf(s)|..];
    if digits == "" || !AllDigits(digits) || Value(digits) >= 0x1_0000 then Err(FormatError)
    else Ok(Value(digits))
  }

  /** Where the first colon is, or the length of the text. */
  function ColonAt(s: string): (n: nat)
    ensures n <= |s|
    ensures ':' !in s[..n]
    ensures n < |s| ==> s[n] == ':'
  {
    if s == "" || s[0] == ':' then 0
    else
      assert s[..ColonAt(s[1..]) + 1] == [s[0]] + s[1..][..ColonAt(s[1..])];
      ColonAt(s[1..]) + 1
  }

  /** Rule::from_str. */
  function Parse(s: string): Result<Rule, RuleParseError> {
    var n := ColonAt(s);
    if n == |s| then
      Err(FormatError)
    else
      match ParseProtocol(s[..n])
      case Err(e) => Err(e)
      case Ok(protocol) =>
        match ParsePort(s[n + 1..])
        case Err(e) => Err(e)
        case Ok(port) => Ok(Rule(protocol, port))
  }

  /** Display of a rule. */
  function Print(r: Rule): string { Name(r.protocol) + ":" + PrintNat(r.dstPort) }

  lemma {:induction false} FirstColon(p: string, rest: string)
    requires ':' !in p
    ensures ColonAt(p + ":" + rest) == |p|
  {
    var s := p + ":" + rest;
    if p == "" {
      assert s[0] == ':';
    } else {
      assert s[1..] == p[1..] + ":" + rest;
      FirstColon(p[1..], rest);
    }
  }

  /** The text p:sign digits spells rule r. */
  ghost predicate Spells(s: string, r: Rule, p: string, sign: string, digits: string) {
    && s == p + ":" + sign + digits
    && Lower(p) == Name(r.protocol)
    && (sign == "" || sign == "+")
    && digits != "" && AllDigits(digits) && Value(digits) == r.dstPort
  }

  lemma SpelledIsParsed(s: string, r: Rule, p: string, sign: string, digits: string)
    requires Spells(s, r, p, sign, digits)
    ensures Parse(s) == Ok(r)
  {
    NamesHaveNoColon(p, r.protocol);
    JoinParts(p, sign, digits);
    FirstColon(p, sign + digits);
    SignedPort(sign, digits);
  }

  lemma NamesHaveNoColon(p: string, protocol: Protocol)
    requires Lower(p) == Name(protocol)
    ensures ':' !in p
    ensures ParseProtocol(p) == Ok(protocol)
  {
    assert forall i :: 0 <= i < |p| ==> LowerChar(p[i]) == Name(protocol)[i] != ':';
  }

  lemma JoinParts(p: string, sign: string, digits: string)
    ensures var s := p + ":" + sign + digits;
            s == p + ":" + (sign + digits) && s[..|p|] == p && s[|p| + 1..] == sign + digits
  {
  }

  lemma {:induction false} SignedPort(sign: string, digits: string)
    requires (sign == "" || sign == "+") && digits != "" && AllDigits(digits)
    ensures ParsePort(sign + digits) == if Value(digits) < 0x1_0000 then Ok(Value(digits)) else Err(FormatError)
  {
    assert IsDigit(digits[0]);
    assert SignOf(sign + digits) == sign;
    assert (sign + digits)[|sign|..] == digits;
  }

  lemma SplitAround(s: string, n: nat, sign: string, digits: string)
    requires n < |s| && s[n] == ':' && s[n + 1..] == sign + digits
    ensures s == s[..n] + ":" + sign + digits
  {
    assert s == s[..n] + ":" + s[n + 1..];
  }

  lemma PortIsSpelled(s: string, port: u16)
    requires ParsePort(s) == Ok(port)
    ensures var digits := s[|SignOf(s)|..]; digits != "" && AllDigits(digits) && Value(digits) == port
  {
  }

  lemma ParsedIsSpelled(s: string, r: Rule)
    requires Parse(s) == Ok(r)
    ensures exists p, sign, digits :: Spells(s, r, p, sign, digits)
  {
    var n := ColonAt(s);
    var p, rest := s[..n], s[n + 1..];
    var sign := SignOf(rest);
    var digits := rest[|sign|..];
    assert rest == sign + digits;
    SplitAround(s, n, sign, digits);
    PortIsSpelled(rest, r.dstPort);
    assert Spells(s, r, p, sign, digits);
  }

  /** Exactly which texts are read as which rule: a protocol name in any case, a
      colon, an optional plus sign and digits of the port's value. */
  lemma ParseExact(s: string, r: Rule)
    ensures Parse(s) == Ok(r) <==> exists p, sign, digits :: Spells(s, r, p, sign, digits)
  {
    if Parse(s) == Ok(r) {
      ParsedIsSpelled(s, r);
    }
    forall p, sign, digits | Spells(s, r, p, sign, digits) ensures Parse(s) == Ok(r) {
      SpelledIsParsed(s, r, p, sign, digits);
    }
  }

  /** The text before the first colon names no protocol. */
  ghost predicate NamesNoProtocol(s: string, p: string, rest: string) {
    s == p + ":" + rest && ':' !in p && Lower(p) != "tcp" && Lower(p) != "udp"
  }

  /** Which error a refused text gets: a wrong protocol name is reported only when there
      is a colon, and before the port is looked at. */
  lemma ParseErrors(s: string)
    ensures Parse(s) == Err(InvalidProtocol) <==> exists p, rest :: NamesNoProtocol(s, p, rest)
    ensures Parse(s).Err? ==> Parse(s) == Err(InvalidProtocol) || Parse(s) == Err(FormatError)
  {
    var n := ColonAt(s);
    if Parse(s) == Err(InvalidProtocol) {
      assert s == s[..n] + ":" + s[n + 1..];
      assert NamesNoProtocol(s, s[..n], s[n + 1..]);
    }
    forall p, rest | NamesNoProtocol(s, p, rest) ensures Parse(s) == Err(InvalidProtocol) {
      FirstColon(p, rest);
      assert s[..n] == p;
    }
  }

  /** Reading the printed form of any rule gives the rule back, so printing what was
      read is a fixed point of reading and printing. */
  lemma PrintParse(r: Rule)
    ensures Parse(Print(r)) == Ok(r)
  {
    PrintedNumber(r.dstPort);
    var digits := PrintNat(r.dstPort);
    assert Print(r) == Name(r.protocol) + ":" + "" + digits;
    SpelledIsParsed(Print(r), r, Name(r.protocol), "", digits);
  }

  lemma LowerKeepsDigits(s: string)
    ensures AllDigits(Lower(s)) <==> AllDigits(s)
    ensures AllDigits(s) ==> Lower(s) == s
  {
    assert forall i :: 0 <= i < |s| ==> (IsDigit(Lower(s)[i]) <==> IsDigit(s[i]));
  }

  lemma LowerOfSlices(s: string, n: nat)
    requires n <= |s|
    ensures Lower(s)[..n] == Lower(s[..n])
    ensures Lower(s)[n..] == Lower(s[n..])
  {
  }

  lemma LowerPort(s: string)
    ensures ParsePort(Lower(s)) == ParsePort(s)
  {
    LowerKeepsDigits(s);
    if s != "" {
      LowerOfSlices(s, 1);
      LowerKeepsDigits(s[1..]);
    }
  }

  lemma {:induction false} LowerColon(s: string)
    ensures ColonAt(Lower(s)) == ColonAt(s)
  {
    if s != "" && s[0] != ':' {
      LowerOfSlices(s, 1);
      LowerColon(s[1..]);
    }
  }

  /** The case of letters never matters. */
  lemma CaseInsensitive(s: string, t: string)
    requires Lower(s) == Lower(t)
    ensures Parse(s) == Parse(t)
  {
    LowerParses(s);
    LowerParses(t);
  }

  lemma LowerProtocol(s: string)
    ensures ParseProtocol(Lower(s)) == ParseProtocol(s)
  {
    assert Lower(Lower(s)) == Lower(s);
  }

  lemma LowerParses(s: string)
    ensures Parse(Lower(s)) == Parse(s)
  {
    var n := ColonAt(s);
    LowerColon(s);
    LowerOfSlices(s, n);
    LowerProtocol(s[..n]);
    if n < |s| {
      LowerOfSlices(s, n + 1);
      LowerPort(s[n + 1..]);
    }
  }

  /** A number beyond 16 bits is no port. */
  lemma LargePort(p: string, digits: string)
    requires Lower(p) == "tcp" || Lower(p) == "udp"
    requires digits != "" && AllDigits(digits) && Value(digits) >= 65536
    ensures Parse(p + ":" + digits) == Err(FormatError)
  {
    NamesHaveNoColon(p, if Lower(p) == "tcp" then Tcp else Udp);
    FirstColon(p, digits);
    SignedPort("", digits);
    var s := p + ":" + digits;
    assert s[..|p|] == p && s[|p| + 1..] == "" + digits;
  }

  /** The protocols are called tcp and udp. */
  lemma Examples()
    ensures Print(Rule(Tcp, 80)) == "tcp:80" && Print(Rule(Udp, 53)) == "udp:53"
  {
    assert PrintNat(8) == "8" && PrintNat(80) == "80";
    assert PrintNat(5) == "5" && PrintNat(53) == "53";
  }
}
