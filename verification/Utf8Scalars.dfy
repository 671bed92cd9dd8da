/** Valid UTF-8 is exactly the encoding of a sequence of Unicode scalar values. */
module Utf8Scalars {
  import opened Common
  import opened Utf8

  /** A code point that is not a surrogate. */
  predicate IsScalar(c: nat) {
    c < 0xD800 || 0xE000 <= c < 0x11_0000
  }

  /** The encoding of one scalar value: one to four bytes, six bits in each but the first. */
  function EncodeScalar(c: nat): (s: Bytes)
    requires IsScalar(c)
    ensures s != []
  {
    if c < 0x80 then [c]
    else if c < 0x800 then [0xC0 + c / 64, 0x80 + c % 64]
    else if c < 0x1_0000 then [0xE0 + c / 4096, 0x80 + c / 64 % 64, 0x80 + c % 64]
    else [0xF0 + c / 262144, 0x80 + c / 4096 % 64, 0x80 + c / 64 % 64, 0x80 + c % 64]
  }

  predicate AllScalars(cs: seq<nat>) {
    forall i :: 0 <= i < |cs| ==> IsScalar(cs[i])
  }

  function EncodeAll(cs: seq<nat>): Bytes
    requires AllScalars(cs)
  {
    if cs == [] then [] else EncodeScalar(cs[0]) + EncodeAll(cs[1..])
  }

  lemma EncodedIsCharacter(c: nat, rest: Bytes)
    requires IsScalar(c)
    ensures var s := EncodeScalar(c);
            Character(s + rest) == |s| && (s + rest)[|s|..] == rest
  {
    var s := EncodeScalar(c);
    var all := s + rest;
    assert forall i :: 0 <= i < |s| ==> all[i] == s[i];
    if c >= 0x1_0000 {
      LeadOfFour(c, c / 4096);
    } else if c >= 0x800 {
      LeadOfThree(c, c / 64);
    }
  }

  /** `x` is the scalar value without its last six bits. */
  lemma LeadOfThree(c: nat, x: nat)
    requires IsScalar(c) && 0x800 <= c < 0x1_0000 && x == c / 64
    ensures c / 4096 == x / 64 && c / 4096 < 16 && Second(0xE0 + c / 4096, 0x80 + x % 64)
  {
    assert c / 4096 == x / 64;
    assert 32 <= x < 1024 && !(864 <= x < 896);
    assert x == 64 * (x / 64) + x % 64;
  }

  /** `x` is the scalar value without its last twelve bits. */
  lemma LeadOfFour(c: nat, x: nat)
    requires IsScalar(c) && 0x1_0000 <= c && x == c / 4096
    ensures c / 262144 == x / 64 && c / 262144 < 5 && Second(0xF0 + c / 262144, 0x80 + x % 64)
  {
    assert c / 262144 == x / 64;
    assert 16 <= x < 272;
    assert x == 64 * (x / 64) + x % 64;
  }

  /** The scalar value that a character of two bytes stands for, and so on. */
  lemma TwoBytes(a: U8, b: U8) returns (c: nat)
    requires 0xC2 <= a < 0xE0 && Continues(b)
    ensures IsScalar(c) && EncodeScalar(c) == [a, b]
  {
    c := (a - 0xC0) * 64 + (b - 0x80);
    assert c / 64 == a - 0xC0 && c % 64 == b - 0x80;
  }

  lemma ThreeBytes(a: U8, b: U8, d: U8) returns (c: nat)
    requires 0xE0 <= a < 0xF0 && Second(a, b) && Continues(d)
    ensures IsScalar(c) && EncodeScalar(c) == [a, b, d]
  {
    var x := (a - 0xE0) * 64 + (b - 0x80);
    assert x / 64 == a - 0xE0 && x % 64 == b - 0x80;
    c := x * 64 + (d - 0x80);
    assert c / 64 == x && c % 64 == d - 0x80 && c / 4096 == x / 64;
  }

  lemma FourBytes(a: U8, b: U8, d: U8, e: U8) returns (c: nat)
    requires 0xF0 <= a < 0xF5 && Second(a, b) && Continues(d) && Continues(e)
    ensures IsScalar(c) && EncodeScalar(c) == [a, b, d, e]
  {
    var x := (a - 0xF0) * 64 + (b - 0x80);
    assert x / 64 == a - 0xF0 && x % 64 == b - 0x80;
    var y := x * 64 + (d - 0x80);
    assert y / 64 == x && y % 64 == d - 0x80;
    c := y * 64 + (e - 0x80);
    assert c / 64 == y && c % 64 == e - 0x80 && c / 4096 == x && c / 262144 == x / 64;
  }

  lemma CharacterIsEncoded(s: Bytes) returns (c: nat)
    requires s != [] && Character(s) > 0
    ensures IsScalar(c) && EncodeScalar(c) == s[..Character(s)]
  {
    match Character(s)
    case 1 =>
      c := s[0];
      assert s[..1] == [s[0]];
    case 2 =>
      c := TwoBytes(s[0], s[1]);
      assert s[..2] == [s[0], s[1]];
    case 3 =>
      c := ThreeBytes(s[0], s[1], s[2]);
      assert s[..3] == [s[0], s[1], s[2]];
    case 4 =>
      c := FourBytes(s[0], s[1], s[2], s[3]);
      assert s[..4] == [s[0], s[1], s[2], s[3]];
  }

  lemma {:induction false} EncodedIsValid(cs: seq<nat>)
    requires AllScalars(cs)
    ensures ValidUtf8(EncodeAll(cs))
  {
    if cs != [] {
      EncodedIsCharacter(cs[0], EncodeAll(cs[1..]));
      EncodedIsValid(cs[1..]);
    }
  }

  lemma {:induction false} ValidIsEncoded(s: Bytes) returns (cs: seq<nat>)
    requires ValidUtf8(s)
    ensures AllScalars(cs) && EncodeAll(cs) == s
    decreases |s|
  {
    if s == [] {
      return [];
    }
    var n := Character(s);
    var c := CharacterIsEncoded(s);
    var rest := ValidIsEncoded(s[n..]);
    cs := [c] + rest;
    assert cs[1..] == rest && s == s[..n] + s[n..];
  }

  /** Bytes are valid exactly when they encode scalar values. */
  lemma ValidIffEncoded(s: Bytes)
    ensures ValidUtf8(s) <==> exists cs :: AllScalars(cs) && EncodeAll(cs) == s
  {
    if ValidUtf8(s) {
      var cs := ValidIsEncoded(s);
    }
    if cs :| AllScalars(cs) && EncodeAll(cs) == s {
      EncodedIsValid(cs);
    }
  }
}
