/** Which byte strings are UTF-8 (section 3 of RFC 3629): the check, and the encoding it recognises. */
module Utf8 {
  import opened Bytes

  // ----- The check -----

  predicate Continues(b: byte) { 0x80 <= b <= 0xBF }

  /** The length of the well-formed character at the front, or 0 (section 4 of RFC 3629). */
  function CharLength(s: seq<byte>): (n: nat)
    ensures n <= |s|
  {
    if |s| >= 1 && s[0] <= 0x7F then 1
    else if |s| >= 2 && 0xC2 <= s[0] <= 0xDF && Continues(s[1]) then 2
    else if |s| >= 3 && 0xE0 <= s[0] <= 0xEF && Continues(s[1]) && Continues(s[2])
            && (s[0] == 0xE0 ==> s[1] >= 0xA0) && (s[0] == 0xED ==> s[1] <= 0x9F) then 3
    else if |s| >= 4 && 0xF0 <= s[0] <= 0xF4 && Continues(s[1]) && Continues(s[2]) && Continues(s[3])
            && (s[0] == 0xF0 ==> s[1] >= 0x90) && (s[0] == 0xF4 ==> s[1] <= 0x8F) then 4
    else 0
  }

  predicate ValidUtf8(s: seq<byte>) {
    s == [] || (CharLength(s) > 0 && ValidUtf8(s[CharLength(s)..]))
  }

  // ----- The encoding -----

  /** A character number that may be encoded: not a surrogate. */
  predicate Scalar(c: nat) {
    c < 0xD800 || 0xE000 <= c <= 0x10FFFF
  }

  function EncodeChar(c: nat): (s: seq<byte>)
    requires Scalar(c)
    ensures s != []
  {
    if c < 0x80 then [c]
    else if c < 0x800 then [0xC0 + c / 64, 0x80 + c % 64]
    else if c < 0x1_0000 then [0xE0 + c / 4096, 0x80 + c / 64 % 64, 0x80 + c % 64]
    else [0xF0 + c / 262144, 0x80 + c / 4096 % 64, 0x80 + c / 64 % 64, 0x80 + c % 64]
  }

  function Encode(cs: seq<nat>): seq<byte>
    requires forall i :: 0 <= i < |cs| ==> Scalar(cs[i])
  {
    if cs == [] then [] else EncodeChar(cs[0]) + Encode(cs[1..])
  }

  /** The payload of a byte: what it is above its marker. */
  function Payload(b: byte, marker: nat): nat
    requires marker <= b
  {
    b as nat - marker
  }

  /** The character number that a well-formed front stands for. */
  function Decoded(s: seq<byte>): nat
    requires CharLength(s) > 0
  {
    if s[0] <= 0x7F then s[0]
    else if s[0] <= 0xDF then Payload(s[0], 0xC0) * 64 + Payload(s[1], 0x80)
    else if s[0] <= 0xEF then Payload(s[0], 0xE0) * 4096 + Payload(s[1], 0x80) * 64 + Payload(s[2], 0x80)
    else Payload(s[0], 0xF0) * 262144 + Payload(s[1], 0x80) * 4096 + Payload(s[2], 0x80) * 64 + Payload(s[3], 0x80)
  }

  lemma TwoBytes(a: nat, b: nat)
    requires 2 <= a < 32 && b < 64
    ensures Scalar(a * 64 + b) && EncodeChar(a * 64 + b) == [0xC0 + a, 0x80 + b]
  {
  }

  lemma ThreeBytes(a: nat, b: nat, c: nat)
    requires a < 16 && b < 64 && c < 64 && (a == 0 ==> b >= 32) && (a == 13 ==> b < 32)
    ensures Scalar(a * 4096 + b * 64 + c)
    ensures EncodeChar(a * 4096 + b * 64 + c) == [0xE0 + a, 0x80 + b, 0x80 + c]
  {
    var n := a * 4096 + b * 64 + c;
    assert n / 4096 == a && n / 64 == a * 64 + b;
  }

  lemma FourBytes(a: nat, b: nat, c: nat, d: nat)
    requires a <= 4 && b < 64 && c < 64 && d < 64 && (a == 0 ==> b >= 16) && (a == 4 ==> b < 16)
    ensures Scalar(a * 262144 + b * 4096 + c * 64 + d)
    ensures EncodeChar(a * 262144 + b * 4096 + c * 64 + d) == [0xF0 + a, 0x80 + b, 0x80 + c, 0x80 + d]
  {
    var n := a * 262144 + b * 4096 + c * 64 + d;
    assert n / 262144 == a && n / 4096 == a * 64 + b && n / 64 == a * 4096 + b * 64 + c;
  }

  /** A front found well formed is the encoding of a character. */
  lemma FrontEncodes(s: seq<byte>)
    requires CharLength(s) > 0
    ensures Scalar(Decoded(s)) && EncodeChar(Decoded(s)) == s[..CharLength(s)]
  {
    if s[0] <= 0x7F {
      assert s[..1] == [s[0]];
    } else if s[0] <= 0xDF {
      hide EncodeChar;
      TwoBytes(Payload(s[0], 0xC0), Payload(s[1], 0x80));
    } else if s[0] <= 0xEF {
      hide EncodeChar;
      ThreeBytes(Payload(s[0], 0xE0), Payload(s[1], 0x80), Payload(s[2], 0x80));
    } else {
      hide EncodeChar;
      FourBytes(Payload(s[0], 0xF0), Payload(s[1], 0x80), Payload(s[2], 0x80), Payload(s[3], 0x80));
    }
  }

  /** The encoding of a character is found well formed, whatever follows it. */
  lemma EncodedFront(c: nat, rest: seq<byte>)
    requires Scalar(c)
    ensures CharLength(EncodeChar(c) + rest) == |EncodeChar(c)|
  {
    var s := EncodeChar(c) + rest;
    assert forall i :: 0 <= i < |EncodeChar(c)| ==> s[i] == EncodeChar(c)[i];
  }

  lemma {:induction false} EncodedIsValid(cs: seq<nat>)
    requires forall i :: 0 <= i < |cs| ==> Scalar(cs[i])
    ensures ValidUtf8(Encode(cs))
    decreases |cs|
  {
    hide CharLength, EncodeChar, Scalar;
    if cs != [] {
      EncodedFront(cs[0], Encode(cs[1..]));
      EncodedIsValid(cs[1..]);
      assert Encode(cs)[|EncodeChar(cs[0])|..] == Encode(cs[1..]);
    }
  }

  lemma {:induction false} ValidIsEncoded(s: seq<byte>) returns (cs: seq<nat>)
    requires ValidUtf8(s)
    ensures (forall i :: 0 <= i < |cs| ==> Scalar(cs[i])) && Encode(cs) == s
    decreases |s|
  {
    hide CharLength, EncodeChar, Decoded, Scalar;
    if s == [] {
      cs := [];
    } else {
      FrontEncodes(s);
      var n := CharLength(s);
      var rest := ValidIsEncoded(s[n..]);
      cs := [Decoded(s)] + rest;
      assert cs[1..] == rest && s == s[..n] + s[n..];
    }
  }

  /** A string encodes these characters. */
  ghost predicate Encodes(s: seq<byte>, cs: seq<nat>) {
    (forall i :: 0 <= i < |cs| ==> Scalar(cs[i])) && Encode(cs) == s
  }

  /** The check accepts exactly the encodings of character sequences. */
  lemma ValidExactly(s: seq<byte>)
    ensures ValidUtf8(s) <==> exists cs :: Encodes(s, cs)
  {
    if ValidUtf8(s) {
      var cs := ValidIsEncoded(s);
      assert Encodes(s, cs);
    }
    if cs :| Encodes(s, cs) { EncodedIsValid(cs); }
  }
}
