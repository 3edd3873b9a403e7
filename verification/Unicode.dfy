/** UTF-8 as its definition has it, and that the decoder's rule is exactly that. */
module Unicode {
  import opened Delimiters
  import opened Wire

  /** A code point in UTF-8 (section 3 of RFC 3629). */
  function Utf8(p: nat): (s: bytes)
    requires p < 0x11_0000
    ensures 1 <= |s| <= 4
  {
    if p < 0x80 then [p]
    else if p < 0x800 then [0xC0 + p / 64, 0x80 + p % 64]
    else if p < 0x1_0000 then [0xE0 + p / 4096, 0x80 + p / 64 % 64, 0x80 + p % 64]
    else [0xF0 + p / 262144, 0x80 + p / 4096 % 64, 0x80 + p / 64 % 64, 0x80 + p % 64]
  }

  /** A character: any code point that is not a surrogate. */
  predicate IsCharacter(p: nat) {
    p < 0x11_0000 && !(0xD800 <= p <= 0xDFFF)
  }

  predicate AreCharacters(ps: seq<nat>) {
    forall i :: 0 <= i < |ps| ==> IsCharacter(ps[i])
  }

  function Utf8All(ps: seq<nat>): bytes
    requires AreCharacters(ps)
  {
    if ps == [] then [] else Utf8(ps[0]) + Utf8All(ps[1..])
  }

  /** A character in front is taken whole. */
  lemma CharacterTaken(p: nat, rest: bytes)
    requires IsCharacter(p)
    ensures CharLength(Utf8(p) + rest) == |Utf8(p)|
  {
    var s := Utf8(p) + rest;
    if 0x800 <= p < 0x1_0000 {
      ThirdPlane(p);
    } else if p >= 0x1_0000 {
      FourthPlane(p);
    }
  }

  lemma ThirdPlane(p: nat)
    requires IsCharacter(p) && 0x800 <= p < 0x1_0000
    ensures p / 4096 == 0 ==> p / 64 % 64 >= 0x20
    ensures p / 4096 == 13 ==> p / 64 % 64 <= 0x1F
    ensures p / 4096 <= 15
  {
  }

  lemma FourthPlane(p: nat)
    requires 0x1_0000 <= p < 0x11_0000
    ensures p / 262144 <= 4
    ensures p / 262144 == 0 ==> p / 4096 % 64 >= 0x10
    ensures p / 262144 == 4 ==> p / 4096 % 64 <= 0x0F
  {
  }

  /** What is taken is a character. */
  lemma TakenCharacter(s: bytes) returns (p: nat)
    requires CharLength(s) > 0
    ensures IsCharacter(p) && Utf8(p) == s[..CharLength(s)]
  {
    var n := CharLength(s);
    var lead: int := s[0];
    if n == 1 {
      p := lead;
    } else if n == 2 {
      var a, b: int := lead - 0xC0, s[1];
      p := 64 * a + (b - 0x80);
      Digits2(p, a, b - 0x80);
    } else if n == 3 {
      var a, b: int, c: int := lead - 0xE0, s[1], s[2];
      p := 4096 * a + 64 * (b - 0x80) + (c - 0x80);
      Digits3(p, a, b - 0x80, c - 0x80);
    } else {
      var a, b: int, c: int, d: int := lead - 0xF0, s[1], s[2], s[3];
      p := 262144 * a + 4096 * (b - 0x80) + 64 * (c - 0x80) + (d - 0x80);
      Digits4(p, a, b - 0x80, c - 0x80, d - 0x80);
    }
  }

  lemma Digits2(p: nat, a: nat, b: nat)
    requires p == 64 * a + b && b < 64
    ensures p / 64 == a && p % 64 == b
  {
  }

  lemma Digits3(p: nat, a: nat, b: nat, c: nat)
    requires p == 4096 * a + 64 * b + c && b < 64 && c < 64
    ensures p / 4096 == a && p / 64 % 64 == b && p % 64 == c
  {
    Digits2(p, 64 * a + b, c);
    Digits2(64 * a + b, a, b);
  }

  lemma Digits4(p: nat, a: nat, b: nat, c: nat, d: nat)
    requires p == 262144 * a + 4096 * b + 64 * c + d && b < 64 && c < 64 && d < 64
    ensures p / 262144 == a && p / 4096 % 64 == b && p / 64 % 64 == c && p % 64 == d
  {
    Digits3(p, 64 * a + b, c, d);
    Digits2(64 * a + b, a, b);
  }

  lemma {:induction false} EncodedDecodes(ps: seq<nat>)
    requires AreCharacters(ps)
    ensures IsUtf8(Utf8All(ps))
    decreases |ps|
  {
    if ps != [] {
      var c, rest := Utf8(ps[0]), Utf8All(ps[1..]);
      CharacterTaken(ps[0], rest);
      EncodedDecodes(ps[1..]);
      assert (c + rest)[|c|..] == rest;
    }
  }

  lemma {:induction false} DecodedCharacters(s: bytes) returns (ps: seq<nat>)
    requires IsUtf8(s)
    ensures AreCharacters(ps) && Utf8All(ps) == s
    decreases |s|
  {
    if s == [] {
      ps := [];
    } else {
      var n := CharLength(s);
      var p := TakenCharacter(s);
      var later := DecodedCharacters(s[n..]);
      ps := [p] + later;
      assert ps[1..] == later;
      assert s == s[..n] + s[n..];
    }
  }

  /** A byte string decodes if and only if it is some characters, one after the other, in UTF-8. */
  lemma DecodesExactly(s: bytes)
    ensures IsUtf8(s) <==> exists ps :: AreCharacters(ps) && Utf8All(ps) == s
  {
    if IsUtf8(s) {
      var ps := DecodedCharacters(s);
    }
    if ps :| AreCharacters(ps) && Utf8All(ps) == s {
      EncodedDecodes(ps);
    }
  }
}
