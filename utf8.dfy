/** Byte strings and UTF-8 well-formedness.

    The encoder asks PCRE whether a byte string is valid UTF-8 (a `/u` match
    and `preg_last_error`). PCRE's check accepts exactly the UTF-8 syntax of
    section 4 of RFC 3629: shortest-form sequences of Unicode scalar values.
    This module defines that syntax octet by octet and proves that it means
    what the RFC says it means. */
module Utf8 {

  /** One octet of a PHP byte string. */
  type Byte = b: int | 0 <= b < 0x100

  type Bytes = seq<Byte>

  /** UTF8-tail = %x80-BF */
  predicate IsTail(b: Byte) {
    0x80 <= b <= 0xBF
  }

  /** The six payload bits of a tail octet. */
  function Low6(b: Byte): int {
    b as int - 0x80
  }

  /** The octets that never appear in UTF-8 (section 1 of RFC 3629). */
  predicate Forbidden(b: Byte) {
    b == 0xC0 || b == 0xC1 || b >= 0xF5
  }

  /** The number of octets of the UTF8-char at the start of `s`, or 0 when `s`
      does not start with one. */
  function CharLength(s: Bytes): (n: nat)
    ensures n <= 4 && n <= |s|
    ensures n > 0 ==> forall i :: 0 <= i < n ==> !Forbidden(s[i])
    ensures n > 0 ==> (n == 1 <==> s[0] < 0x80)
  {
    if |s| == 0 then 0
    else
      var b := s[0];
      if b <= 0x7F then 1
      else if 0xC2 <= b <= 0xDF then
        if |s| >= 2 && IsTail(s[1]) then 2 else 0
      else if b == 0xE0 then
        if |s| >= 3 && 0xA0 <= s[1] <= 0xBF && IsTail(s[2]) then 3 else 0
      else if 0xE1 <= b <= 0xEC || 0xEE <= b <= 0xEF then
        if |s| >= 3 && IsTail(s[1]) && IsTail(s[2]) then 3 else 0
      else if b == 0xED then
        if |s| >= 3 && 0x80 <= s[1] <= 0x9F && IsTail(s[2]) then 3 else 0
      else if b == 0xF0 then
        if |s| >= 4 && 0x90 <= s[1] <= 0xBF && IsTail(s[2]) && IsTail(s[3]) then 4 else 0
      else if 0xF1 <= b <= 0xF3 then
        if |s| >= 4 && IsTail(s[1]) && IsTail(s[2]) && IsTail(s[3]) then 4 else 0
      else if b == 0xF4 then
        if |s| >= 4 && 0x80 <= s[1] <= 0x8F && IsTail(s[2]) && IsTail(s[3]) then 4 else 0
      else 0
  }

  /** UTF8-octets = *( UTF8-char ): the input passes PCRE's UTF-8 check.
      Such input never starts with a continuation octet and never ends in
      the middle of a char (a truncated multi-octet char is malformed). */
  predicate WellFormed(s: Bytes)
    ensures WellFormed(s) && s != [] ==> !IsTail(s[0]) && !Forbidden(s[0])
    ensures WellFormed(s) && s != [] ==> s[|s| - 1] < 0x80 || IsTail(s[|s| - 1])
    decreases |s|
  {
    s == [] || (CharLength(s) > 0 && WellFormed(s[CharLength(s)..]))
  }

  /** The scalar value encoded by the UTF8-char at the start of `s`. */
  function CodePoint(s: Bytes): (cp: int)
    requires CharLength(s) > 0
    ensures 0 <= cp <= 0x10FFFF && !(0xD800 <= cp <= 0xDFFF)
    ensures CharLength(s) == 1 <==> cp < 0x80
    ensures CharLength(s) == 2 <==> 0x80 <= cp < 0x800
    ensures CharLength(s) == 3 <==> 0x800 <= cp < 0x10000
    ensures CharLength(s) == 4 <==> 0x10000 <= cp
  {
    var n := CharLength(s);
    var lead: int := s[0];
    if n == 1 then lead
    else if n == 2 then (lead - 0xC0) * 0x40 + Low6(s[1])
    else if n == 3 then (lead - 0xE0) * 0x1000 + Low6(s[1]) * 0x40 + Low6(s[2])
    else (lead - 0xF0) * 0x40000 + Low6(s[1]) * 0x1000 + Low6(s[2]) * 0x40 + Low6(s[3])
  }

  /** A Unicode scalar value: a code point that is not a surrogate. */
  predicate IsScalarValue(cp: int) {
    0 <= cp <= 0x10FFFF && !(0xD800 <= cp <= 0xDFFF)
  }

  /** The shortest-form UTF-8 encoding of a scalar value (section 3 of RFC 3629). */
  function Encode(cp: int): (s: Bytes)
    requires IsScalarValue(cp)
    ensures 1 <= |s| <= 4
  {
    if cp < 0x80 then [cp]
    else if cp < 0x800 then [0xC0 + cp / 0x40, 0x80 + cp % 0x40]
    else if cp < 0x10000 then [0xE0 + cp / 0x1000, 0x80 + (cp / 0x40) % 0x40, 0x80 + cp % 0x40]
    else [0xF0 + cp / 0x40000, 0x80 + (cp / 0x1000) % 0x40, 0x80 + (cp / 0x40) % 0x40, 0x80 + cp % 0x40]
  }

  /** Every scalar value has exactly one UTF8-char, and it decodes back to it. */
  lemma EncodeDecode(cp: int)
    requires IsScalarValue(cp)
    ensures CharLength(Encode(cp)) == |Encode(cp)|
    ensures CodePoint(Encode(cp)) == cp
    ensures WellFormed(Encode(cp))
  {
    var s := Encode(cp);
    if cp < 0x80 {
    } else if cp < 0x800 {
      EncodeDecode2(cp);
    } else if cp < 0x10000 {
      EncodeDecode3(cp);
    } else {
      EncodeDecode4(cp);
    }
    assert s[CharLength(s)..] == [];
  }

  lemma EncodeDecode2(cp: int)
    requires 0x80 <= cp < 0x800
    ensures CharLength(Encode(cp)) == 2 && CodePoint(Encode(cp)) == cp
  {
    var a, b := cp / 0x40, cp % 0x40;
    assert cp == a * 0x40 + b;
    assert 2 <= a < 0x20;
  }

  lemma EncodeDecode3(cp: int)
    requires 0x800 <= cp < 0x10000 && !(0xD800 <= cp <= 0xDFFF)
    ensures CharLength(Encode(cp)) == 3 && CodePoint(Encode(cp)) == cp
  {
    var q := cp / 0x40;
    var a, b, c := q / 0x40, q % 0x40, cp % 0x40;
    assert cp == q * 0x40 + c;
    assert q == a * 0x40 + b;
    assert a == cp / 0x1000;
  }

  lemma EncodeDecode4(cp: int)
    requires 0x10000 <= cp <= 0x10FFFF
    ensures CharLength(Encode(cp)) == 4 && CodePoint(Encode(cp)) == cp
  {
    var q := cp / 0x40;
    var r := q / 0x40;
    var a, b, c, d := r / 0x40, r % 0x40, q % 0x40, cp % 0x40;
    assert cp == q * 0x40 + d;
    assert q == r * 0x40 + c;
    assert r == a * 0x40 + b;
    assert r == cp / 0x1000;
    assert a == cp / 0x40000;
  }

  /** Every UTF8-char is the encoding of the scalar value it decodes to, so
      the syntax admits no overlong form. */
  lemma DecodeEncode(s: Bytes)
    requires CharLength(s) > 0
    ensures Encode(CodePoint(s)) == s[..CharLength(s)]
  {
    var n := CharLength(s);
    var cp := CodePoint(s);
    if n == 2 {
      assert cp / 0x40 == s[0] - 0xC0 && cp % 0x40 == Low6(s[1]);
    } else if n == 3 {
      var q := cp / 0x40;
      assert q == (s[0] - 0xE0) * 0x40 + Low6(s[1]) && cp % 0x40 == Low6(s[2]);
      assert cp / 0x1000 == q / 0x40;
    } else if n == 4 {
      var q := cp / 0x40;
      var r := q / 0x40;
      assert q == ((s[0] - 0xF0) * 0x40 + Low6(s[1])) * 0x40 + Low6(s[2]) && cp % 0x40 == Low6(s[3]);
      assert r == (s[0] - 0xF0) * 0x40 + Low6(s[1]);
      assert cp / 0x1000 == r && cp / 0x40000 == r / 0x40;
    }
  }

  /** ASCII text is well-formed UTF-8. */
  lemma {:induction false} AsciiIsWellFormed(s: Bytes)
    requires forall i :: 0 <= i < |s| ==> s[i] < 0x80
    ensures WellFormed(s)
  {
    if s != [] {
      assert CharLength(s) == 1;
      AsciiIsWellFormed(s[1..]);
    }
  }

  /** A two-octet char in front of well-formed UTF-8 keeps it well-formed. */
  lemma TwoOctetChar(lead: Byte, tail: Byte, rest: Bytes)
    requires 0xC2 <= lead <= 0xDF && IsTail(tail) && WellFormed(rest)
    ensures WellFormed([lead, tail] + rest)
  {
    var s := [lead, tail] + rest;
    assert CharLength(s) == 2;
    assert s[2..] == rest;
  }

  /** A byte string that holds an octet UTF-8 never uses is not well-formed. */
  lemma {:induction false} ForbiddenOctetIsIllFormed(s: Bytes, i: nat)
    requires i < |s| && Forbidden(s[i])
    ensures !WellFormed(s)
  {
    if WellFormed(s) {
      var n := CharLength(s);
      assert i >= n;
      assert s[n..][i - n] == s[i];
      ForbiddenOctetIsIllFormed(s[n..], i - n);
    }
  }
}
