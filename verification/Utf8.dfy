/** Reading text from bytes: UTF-8 as section 4 of RFC 3629 defines it. */
module Utf8 {
  import opened Basics

  /** A scalar value and the number of bytes that encode it. */
  datatype Lead = Lead(c: char, size: nat)

  predicate IsTail(b: byte) { 0x80 <= b < 0xC0 }

  predicate IsTwo(s: Packet) {
    |s| >= 2 && 0xC2 <= s[0] < 0xE0 && IsTail(s[1])
  }

  predicate IsThree(s: Packet) {
    && |s| >= 3 && 0xE0 <= s[0] < 0xF0 && IsTail(s[1]) && IsTail(s[2])
    && (s[0] == 0xE0 ==> s[1] >= 0xA0) && (s[0] == 0xED ==> s[1] < 0xA0)
  }

  predicate IsFour(s: Packet) {
    && |s| >= 4 && 0xF0 <= s[0] < 0xF5 && IsTail(s[1]) && IsTail(s[2]) && IsTail(s[3])
    && (s[0] == 0xF0 ==> s[1] >= 0x90) && (s[0] == 0xF4 ==> s[1] < 0x90)
  }

  function Two(a: byte, b: byte): int { (a - 0xC0) * 0x40 + (b - 0x80) }

  function Three(a: byte, b: byte, c: byte): int { (a - 0xE0) * 0x1000 + (b - 0x80) * 0x40 + (c - 0x80) }

  function Four(a: byte, b: byte, c: byte, d: byte): int {
    (a - 0xF0) * 0x4_0000 + (b - 0x80) * 0x1000 + (c - 0x80) * 0x40 + (d - 0x80)
  }

  /** The character a non-empty text starts with. */
  function First(s: Packet): Option<Lead>
    requires s != []
  {
    if s[0] < 0x80 then Some(Lead(s[0] as char, 1))
    else if IsTwo(s) then Some(Lead(Two(s[0], s[1]) as char, 2))
    else if IsThree(s) then Some(Lead(Three(s[0], s[1], s[2]) as char, 3))
    else if IsFour(s) then Some(Lead(Four(s[0], s[1], s[2], s[3]) as char, 4))
    else None
  }

  function Decode(s: Packet): Option<string> {
    if s == [] then Some("")
    else
      match First(s)
      case None => None
      case Some(Lead(c, size)) =>
        match Decode(s[size..])
        case None => None
        case Some(rest) => Some([c] + rest)
  }

  /** The text, or nothing when it is malformed. */
  function TextOrEmpty(s: Packet): string {
    match Decode(s)
    case Some(t) => t
    case None => ""
  }

  function EncodeChar(c: char): (s: Packet)
    ensures s != []
  {
    var v := c as int;
    if v < 0x80 then [v]
    else if v < 0x800 then [0xC0 + v / 0x40, 0x80 + v % 0x40]
    else if v < 0x1_0000 then [0xE0 + v / 0x1000, 0x80 + v / 0x40 % 0x40, 0x80 + v % 0x40]
    else [0xF0 + v / 0x4_0000, 0x80 + v / 0x1000 % 0x40, 0x80 + v / 0x40 % 0x40, 0x80 + v % 0x40]
  }

  function Encode(t: string): Packet {
    if t == "" then [] else EncodeChar(t[0]) + Encode(t[1..])
  }

  lemma Digits(hi: int, lo: int)
    requires 0 <= lo < 0x40
    ensures (hi * 0x40 + lo) / 0x40 == hi && (hi * 0x40 + lo) % 0x40 == lo
  {
  }

  lemma ThreeDigits(v: nat)
    ensures v / 0x40 / 0x40 == v / 0x1000 && v == v / 0x1000 * 0x1000 + v / 0x40 % 0x40 * 0x40 + v % 0x40
  {
  }

  lemma TopDigit(v: nat)
    ensures v / 0x1000 / 0x40 == v / 0x4_0000
  {
  }

  lemma FourDigits(v: nat)
    ensures v == v / 0x4_0000 * 0x4_0000 + v / 0x1000 % 0x40 * 0x1000 + v / 0x40 % 0x40 * 0x40 + v % 0x40
  {
    var high := v / 0x1000;
    ThreeDigits(v);
    TopDigit(v);
    assert high == high / 0x40 * 0x40 + high % 0x40;
  }

  lemma FirstOfEncoded(c: char, rest: Packet)
    ensures First(EncodeChar(c) + rest) == Some(Lead(c, |EncodeChar(c)|))
  {
    var v, e := c as int, EncodeChar(c);
    var s := e + rest;
    assert forall i :: 0 <= i < |e| ==> s[i] == e[i];
    if 0x800 <= v < 0x1_0000 {
      ThreeDigits(v);
    } else if v >= 0x1_0000 {
      FourDigits(v);
    }
  }

  lemma EncodedTwo(s: Packet)
    requires IsTwo(s)
    ensures EncodeChar(Two(s[0], s[1]) as char) == [s[0], s[1]]
  {
    Digits(s[0] - 0xC0, s[1] - 0x80);
  }

  lemma EncodedThree(s: Packet)
    requires IsThree(s)
    ensures Three(s[0], s[1], s[2]) < 0xD800 || 0xE000 <= Three(s[0], s[1], s[2])
    ensures EncodeChar(Three(s[0], s[1], s[2]) as char) == [s[0], s[1], s[2]]
  {
    var v, high: int := Three(s[0], s[1], s[2]), (s[0] as int - 0xE0) * 0x40 + (s[1] as int - 0x80);
    assert v == high * 0x40 + (s[2] as int - 0x80);
    Digits(high, s[2] - 0x80);
    Digits(s[0] - 0xE0, s[1] - 0x80);
    ThreeDigits(v);
  }

  lemma EncodedFour(s: Packet)
    requires IsFour(s)
    ensures 0x1_0000 <= Four(s[0], s[1], s[2], s[3]) < 0x11_0000
    ensures EncodeChar(Four(s[0], s[1], s[2], s[3]) as char) == [s[0], s[1], s[2], s[3]]
  {
    var v := Four(s[0], s[1], s[2], s[3]);
    var top := (s[0] as int - 0xF0) * 0x40 + (s[1] as int - 0x80);
    var high := top * 0x40 + (s[2] as int - 0x80);
    assert v == high * 0x40 + (s[3] as int - 0x80);
    Digits(high, s[3] - 0x80);
    Digits(top, s[2] - 0x80);
    Digits(s[0] - 0xF0, s[1] - 0x80);
    ThreeDigits(v);
    ThreeDigits(v / 0x40);
    assert v / 0x1000 == top && v / 0x4_0000 == s[0] - 0xF0;
  }

  lemma EncodedFirst(s: Packet)
    requires s != [] && First(s).Some?
    ensures 1 <= First(s).value.size <= |s|
    ensures s == EncodeChar(First(s).value.c) + s[First(s).value.size..]
  {
    if s[0] < 0x80 {
    } else if IsTwo(s) {
      EncodedTwo(s);
    } else if IsThree(s) {
      EncodedThree(s);
    } else {
      EncodedFour(s);
    }
  }

  lemma {:induction false} DecodeEncoded(t: string)
    ensures Decode(Encode(t)) == Some(t)
  {
    if t == "" {
      assert Encode(t) == [];
    } else {
      var s := Encode(t);
      DecodeEncoded(t[1..]);
      FirstOfEncoded(t[0], Encode(t[1..]));
      assert s[|EncodeChar(t[0])|..] == Encode(t[1..]);
      assert [t[0]] + t[1..] == t;
    }
  }

  lemma {:induction false} EncodeDecoded(s: Packet)
    requires Decode(s).Some?
    ensures Encode(Decode(s).value) == s
  {
    if s == [] {
    } else {
      EncodedFirst(s);
      EncodeDecoded(s[First(s).value.size..]);
    }
  }

  /** Exactly which bytes are read as which text: those that encode it. */
  lemma DecodeExact(s: Packet, t: string)
    ensures Decode(s) == Some(t) <==> s == Encode(t)
  {
    DecodeEncoded(t);
    if Decode(s) == Some(t) {
      EncodeDecoded(s);
    }
  }

  /** The examples of section 7 of RFC 3629, one character each. */
  lemma Examples()
    ensures Encode("A\U{2262}") == [0x41, 0xE2, 0x89, 0xA2]
    ensures Encode("\U{D55C}") == [0xED, 0x95, 0x9C]
    ensures Encode("\U{233B4}") == [0xF0, 0xA3, 0x8E, 0xB4]
  {
    var a, b := "A\U{2262}", "\U{D55C}";
    assert a[1..] == "\U{2262}" && a[1..][1..] == "";
    assert EncodeChar('\U{2262}') == [0xE2, 0x89, 0xA2];
    assert EncodeChar('\U{D55C}') == [0xED, 0x95, 0x9C];
    assert EncodeChar('\U{233B4}') == [0xF0, 0xA3, 0x8E, 0xB4];
  }
}
