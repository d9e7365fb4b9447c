/**
  The byte encoding of JavaScript strings that `Buffer.from(s, 'utf8')` produces. A string is
  the sequence of code points it iterates; an unpaired surrogate is encoded as U+FFFD, which is
  where the encoding stops being injective.
 */
module Utf8 {
  import opened Framing
  import opened Strings

  type Point = x: int | 0 <= x < 0x110000

  type Str = seq<Point>

  predicate Surrogate(p: Point) {
    0xD800 <= p < 0xE000
  }

  predicate WellFormed(s: Str) {
    forall p :: p in s ==> !Surrogate(p)
  }

  const REPLACEMENT: Bytes := [0xEF, 0xBF, 0xBD]

  function EncodePoint(p: Point): (b: Bytes)
    ensures 1 <= |b| <= 4
  {
    if p < 0x80 then [p]
    else if p < 0x800 then [0xC0 + p / 64, 0x80 + p % 64]
    else if Surrogate(p) then REPLACEMENT
    else if p < 0x10000 then [0xE0 + p / 64 / 64, 0x80 + p / 64 % 64, 0x80 + p % 64]
    else [0xF0 + p / 64 / 64 / 64, 0x80 + p / 64 / 64 % 64, 0x80 + p / 64 % 64, 0x80 + p % 64]
  }

  function Encode(s: Str): Bytes {
    if s == [] then [] else EncodePoint(s[0]) + Encode(s[1..])
  }

  /** How many bytes a lead byte announces. */
  function LeadLength(c: byte): nat {
    if c < 0x80 then 1 else if c < 0xE0 then 2 else if c < 0xF0 then 3 else 4
  }

  lemma LeadAnnounces(p: Point)
    ensures |EncodePoint(p)| == LeadLength(EncodePoint(p)[0])
  {
  }

  /** The code point a sequence of one to four bytes stands for. */
  function DecodePoint(b: Bytes): int
    requires 1 <= |b| <= 4
  {
    var c := seq(|b|, i requires 0 <= i < |b| => b[i] as int);
    if |b| == 1 then c[0]
    else if |b| == 2 then 64 * (c[0] - 0xC0) + c[1] - 0x80
    else if |b| == 3 then 64 * (64 * (c[0] - 0xE0) + c[1] - 0x80) + c[2] - 0x80
    else 64 * (64 * (64 * (c[0] - 0xF0) + c[1] - 0x80) + c[2] - 0x80) + c[3] - 0x80
  }

  lemma PointRoundTrip(p: Point)
    requires !Surrogate(p)
    ensures DecodePoint(EncodePoint(p)) == p
  {
  }

  /** Well-formed strings with the same encoding are the same string. */
  lemma {:induction false} EncodeInjective(s: Str, t: Str)
    requires WellFormed(s) && WellFormed(t) && Encode(s) == Encode(t)
    ensures s == t
    decreases |s|
  {
    if s != [] && t != [] {
      var a, b := EncodePoint(s[0]), EncodePoint(t[0]);
      var x, y := Encode(s[1..]), Encode(t[1..]);
      assert a[0] == (a + x)[0] && b[0] == (b + y)[0];
      LeadAnnounces(s[0]);
      LeadAnnounces(t[0]);
      assert a == (a + x)[..|a|] && b == (b + y)[..|a|];
      PointRoundTrip(s[0]);
      PointRoundTrip(t[0]);
      assert x == (a + x)[|a|..] && y == (b + y)[|a|..];
      EncodeInjective(s[1..], t[1..]);
      assert s == [s[0]] + s[1..] && t == [t[0]] + t[1..];
    }
  }

  /** Unpaired surrogates are the exception: two different strings, one encoding. */
  lemma SurrogatesCollide()
    ensures Encode([0xD800]) == Encode([0xD801]) == REPLACEMENT
  {
    assert Encode([0xD800]) == EncodePoint(0xD800) + Encode([]);
    assert Encode([0xD801]) == EncodePoint(0xD801) + Encode([]);
  }

  /** The string as it is written: each unpaired surrogate becomes U+FFFD. */
  function Replaced(s: Str): (r: Str)
    ensures |r| == |s| && WellFormed(r)
  {
    seq(|s|, i requires 0 <= i < |s| => if Surrogate(s[i]) then 0xFFFD else s[i])
  }

  lemma ReplacedFront(s: Str)
    requires s != []
    ensures Replaced(s) == [Replaced(s)[0]] + Replaced(s[1..])
    ensures EncodePoint(Replaced(s)[0]) == EncodePoint(s[0])
  {
  }

  lemma {:induction false} EncodeReplaced(s: Str)
    ensures Encode(Replaced(s)) == Encode(s)
  {
    if s != [] {
      EncodeReplaced(s[1..]);
      ReplacedFront(s);
      assert Replaced(s)[1..] == Replaced(s[1..]);
    }
  }

  /** Exactly the strings that agree once unpaired surrogates are replaced have one encoding. */
  lemma EncodingForgetsExactlySurrogates(s: Str, t: Str)
    ensures Encode(s) == Encode(t) <==> Replaced(s) == Replaced(t)
  {
    EncodeReplaced(s);
    EncodeReplaced(t);
    if Encode(s) == Encode(t) {
      EncodeInjective(Replaced(s), Replaced(t));
    }
  }

  /** White space in a header is recognised by its encoding: exactly JavaScript's white space, by its whole width. */
  lemma SpaceIsRecognised(c: char, rest: Bytes)
    requires c as int < 0x110000
    ensures SpaceWidth(EncodePoint(c as int) + rest, 0) == if IsSpace(c) then |EncodePoint(c as int)| else 0
  {
    var p: Point := c as int;
    var b := EncodePoint(p) + rest;
    assert forall i :: 0 <= i < |EncodePoint(p)| ==> b[i] == EncodePoint(p)[i];
    if |b| >= 2 {
      assert b[0..2] == [b[0], b[1]];
    }
    if p < 0x80 {
    } else if p < 0x800 {
      assert |b| >= 2;
    } else if p < 0x10000 {
      assert |b| >= 3;
    }
  }

  /** The first and the last code point of each length, as RFC 3629 (section 3) encodes them. */
  lemma BoundariesAsSpecified()
    ensures EncodePoint(0) == [0] && EncodePoint(0x7F) == [0x7F]
    ensures EncodePoint(0x80) == [0xC2, 0x80] && EncodePoint(0x7FF) == [0xDF, 0xBF]
    ensures EncodePoint(0x800) == [0xE0, 0xA0, 0x80] && EncodePoint(0xFFFF) == [0xEF, 0xBF, 0xBF]
    ensures EncodePoint(0xD7FF) == [0xED, 0x9F, 0xBF] && EncodePoint(0xE000) == [0xEE, 0x80, 0x80]
    ensures EncodePoint(0x10000) == [0xF0, 0x90, 0x80, 0x80] && EncodePoint(0x10FFFF) == [0xF4, 0x8F, 0xBF, 0xBF]
    ensures EncodePoint(0xFFFD) == EncodePoint(0xD800) == EncodePoint(0xDFFF) == [0xEF, 0xBF, 0xBD]
  {
  }
}
