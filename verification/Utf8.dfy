/** UTF-8, against the scalar values it encodes: section 3 of RFC 3629. */
module Utf8 {
  import opened Wire

  predicate IsScalar(c: int) { 0 <= c < 0xD800 || 0xE000 <= c < 0x11_0000 }

  /** The bytes of one scalar value. */
  function OfScalar(c: int): (s: Bytes)
    requires IsScalar(c)
    ensures 1 <= |s| <= 4
  {
    if c < 0x80 then [c]
    else if c < 0x800 then [0xC0 + c / 64, 0x80 + c % 64]
    else if c < 0x1_0000 then [0xE0 + c / 64 / 64, 0x80 + c / 64 % 64, 0x80 + c % 64]
    else [0xF0 + c / 64 / 64 / 64, 0x80 + c / 64 / 64 % 64, 0x80 + c / 64 % 64, 0x80 + c % 64]
  }

  predicate AllScalars(cs: seq<int>) { forall i :: 0 <= i < |cs| ==> IsScalar(cs[i]) }

  function OfScalars(cs: seq<int>): Bytes
    requires AllScalars(cs)
  {
    if cs == [] then [] else OfScalar(cs[0]) + OfScalars(cs[1..])
  }

  lemma Sextets(c: int)
    requires 0 <= c < 0x11_0000
    ensures c == 64 * (c / 64) + c % 64 && c / 64 == 64 * (c / 64 / 64) + c / 64 % 64
    ensures c / 64 / 64 == 64 * (c / 64 / 64 / 64) + c / 64 / 64 % 64
    ensures 0 <= c / 64 / 64 / 64 <= 4
  {
  }

  lemma ScalarFits(c: int, rest: Bytes)
    requires IsScalar(c)
    ensures ScalarLen(OfScalar(c) + rest) == |OfScalar(c)|
  {
    Sextets(c);
    var s := OfScalar(c) + rest;
    assert s[0] == OfScalar(c)[0];
    assert |OfScalar(c)| > 1 ==> s[1] == OfScalar(c)[1];
    assert |OfScalar(c)| > 2 ==> s[2] == OfScalar(c)[2];
    assert |OfScalar(c)| > 3 ==> s[3] == OfScalar(c)[3];
  }

  lemma Sextet(q: int, r: int)
    requires 0 <= r < 64
    ensures (64 * q + r) / 64 == q && (64 * q + r) % 64 == r
  {
  }

  lemma OfTwo(a: int, b: int)
    requires 0xC2 <= a <= 0xDF && 0 <= b < 64
    ensures var c := 64 * (a - 0xC0) + b; IsScalar(c) && OfScalar(c) == [a, 0x80 + b]
  {
    Sextet(a - 0xC0, b);
  }

  lemma OfThree(a: int, b: int, d: int)
    requires 0xE0 <= a <= 0xEF && 0 <= b < 64 && 0 <= d < 64 && (a == 0xE0 ==> b >= 32) && (a == 0xED ==> b < 32)
    ensures var c := 64 * (64 * (a - 0xE0) + b) + d; IsScalar(c) && OfScalar(c) == [a, 0x80 + b, 0x80 + d]
  {
    Sextet(a - 0xE0, b);
    Sextet(64 * (a - 0xE0) + b, d);
  }

  lemma OfFour(a: int, b: int, d: int, e: int)
    requires 0xF0 <= a <= 0xF4 && 0 <= b < 64 && 0 <= d < 64 && 0 <= e < 64
    requires (a == 0xF0 ==> b >= 16) && (a == 0xF4 ==> b < 16)
    ensures var c := 64 * (64 * (64 * (a - 0xF0) + b) + d) + e;
      IsScalar(c) && OfScalar(c) == [a, 0x80 + b, 0x80 + d, 0x80 + e]
  {
    Sextet(a - 0xF0, b);
    Sextet(64 * (a - 0xF0) + b, d);
    Sextet(64 * (64 * (a - 0xF0) + b) + d, e);
  }

  /** The scalar value that a well-formed sequence is. */
  lemma ScalarOf(s: Bytes) returns (c: int)
    requires ScalarLen(s) > 0
    ensures IsScalar(c) && OfScalar(c) == s[..ScalarLen(s)]
  {
    var n := ScalarLen(s);
    var a: int := s[0];
    if n == 1 {
      c := a;
      assert OfScalar(c) == [a];
      return;
    }
    hide OfScalar, IsScalar;
    var b: int := s[1] - 0x80;
    if n == 2 {
      c := 64 * (a - 0xC0) + b;
      OfTwo(a, b);
    } else {
      var d: int := s[2] - 0x80;
      if n == 3 {
        c := 64 * (64 * (a - 0xE0) + b) + d;
        OfThree(a, b, d);
      } else {
        var e: int := s[3] - 0x80;
        c := 64 * (64 * (64 * (a - 0xF0) + b) + d) + e;
        OfFour(a, b, d, e);
      }
    }
  }

  lemma {:induction false} ScalarsValid(cs: seq<int>)
    requires AllScalars(cs)
    ensures ValidUtf8(OfScalars(cs))
    decreases |cs|
  {
    hide ScalarLen, OfScalar;
    if cs != [] {
      ScalarsValid(cs[1..]);
      var e, rest := OfScalar(cs[0]), OfScalars(cs[1..]);
      ScalarFits(cs[0], rest);
      assert (e + rest)[|e|..] == rest;
    }
  }

  lemma {:induction false} ScalarsOf(s: Bytes) returns (cs: seq<int>)
    requires ValidUtf8(s)
    ensures AllScalars(cs) && OfScalars(cs) == s
    decreases |s|
  {
    hide ScalarLen, OfScalar;
    if s == [] {
      cs := [];
    } else {
      var n := ScalarLen(s);
      var c := ScalarOf(s);
      var rest := ScalarsOf(s[n..]);
      cs := [c] + rest;
      assert cs[1..] == rest && s == s[..n] + s[n..];
    }
  }

  /** Bytes are valid exactly when they are the encodings of scalar values, one after another. */
  lemma ValidMeans(s: Bytes)
    ensures ValidUtf8(s) <==> exists cs: seq<int> :: AllScalars(cs) && OfScalars(cs) == s
  {
    hide ValidUtf8, OfScalars, AllScalars;
    if ValidUtf8(s) { var cs := ScalarsOf(s); }
    if exists cs: seq<int> :: AllScalars(cs) && OfScalars(cs) == s {
      var cs: seq<int> :| AllScalars(cs) && OfScalars(cs) == s;
      ScalarsValid(cs);
    }
  }
}
