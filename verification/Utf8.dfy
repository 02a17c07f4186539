/** UTF-8 (section 3 of RFC 3629): the validity test of `str::from_utf8`, and what it accepts. */
module Utf8 {
  import opened Basics

  predicate Continuation(b: byte) { 0x80 <= b <= 0xBF }

  /** Well-formed UTF-8, as the table in section 4 of RFC 3629 has it. */
  predicate Valid(s: Bytes)
    decreases |s|
  {
    if |s| == 0 then true
    else if s[0] < 0x80 then Valid(s[1..])
    else if 0xC2 <= s[0] <= 0xDF then |s| >= 2 && Continuation(s[1]) && Valid(s[2..])
    else if 0xE0 <= s[0] <= 0xEF then
      && |s| >= 3 && Continuation(s[1]) && Continuation(s[2])
      && (s[0] == 0xE0 ==> s[1] >= 0xA0) && (s[0] == 0xED ==> s[1] <= 0x9F)
      && Valid(s[3..])
    else if 0xF0 <= s[0] <= 0xF4 then
      && |s| >= 4 && Continuation(s[1]) && Continuation(s[2]) && Continuation(s[3])
      && (s[0] == 0xF0 ==> s[1] >= 0x90) && (s[0] == 0xF4 ==> s[1] <= 0x8F)
      && Valid(s[4..])
    else false
  }

  /** Unicode scalar values: all code points but the surrogates. */
  type Scalar = n: int | 0 <= n < 0xD800 || 0xE000 <= n < 0x11_0000

  /** The octets of one scalar value. */
  function Encode(n: Scalar): (s: Bytes)
    ensures 1 <= |s| <= 4
  {
    if n < 0x80 then [n]
    else if n < 0x800 then [0xC0 + n / 64, 0x80 + n % 64]
    else if n < 0x1_0000 then [0xE0 + n / 4096, 0x80 + n / 64 % 64, 0x80 + n % 64]
    else [0xF0 + n / 262144, 0x80 + n / 4096 % 64, 0x80 + n / 64 % 64, 0x80 + n % 64]
  }

  function EncodeAll(cs: seq<Scalar>): Bytes {
    if |cs| == 0 then [] else Encode(cs[0]) + EncodeAll(cs[1..])
  }

  lemma EncodedIsValid(n: Scalar, rest: Bytes)
    ensures Valid(Encode(n) + rest) <==> Valid(rest)
  {
    var e := Encode(n);
    var s := e + rest;
    assert s[|e|..] == rest;
    assert forall i :: 0 <= i < |e| ==> s[i] == e[i];
    hide Encode;
    EncodedShape(n);
    assert |e| == 1 ==> s[1..] == rest;
  }

  /** The octets of a scalar value fit the table. */
  lemma EncodedShape(n: Scalar)
    ensures var e := Encode(n);
            || (|e| == 1 && e[0] < 0x80)
            || (|e| == 2 && 0xC2 <= e[0] <= 0xDF && Continuation(e[1]))
            || (&& |e| == 3 && 0xE0 <= e[0] <= 0xEF && Continuation(e[1]) && Continuation(e[2])
                && (e[0] == 0xE0 ==> e[1] >= 0xA0) && (e[0] == 0xED ==> e[1] <= 0x9F))
            || (&& |e| == 4 && 0xF0 <= e[0] <= 0xF4 && Continuation(e[1]) && Continuation(e[2]) && Continuation(e[3])
                && (e[0] == 0xF0 ==> e[1] >= 0x90) && (e[0] == 0xF4 ==> e[1] <= 0x8F))
  {
  }

  lemma TwoOctets(a: int, b: int) returns (n: Scalar)
    requires 0xC2 <= a <= 0xDF && 0x80 <= b <= 0xBF
    ensures Encode(n) == [a, b]
  {
    n := (a - 0xC0) * 64 + (b - 0x80);
  }

  lemma ThreeOctets(a: int, b: int, c: int) returns (n: Scalar)
    requires 0xE0 <= a <= 0xEF && 0x80 <= b <= 0xBF && 0x80 <= c <= 0xBF
    requires (a == 0xE0 ==> b >= 0xA0) && (a == 0xED ==> b <= 0x9F)
    ensures Encode(n) == [a, b, c]
  {
    n := (a - 0xE0) * 4096 + (b - 0x80) * 64 + (c - 0x80);
    assert n / 64 == (a - 0xE0) * 64 + (b - 0x80);
  }

  lemma FourOctets(a: int, b: int, c: int, d: int) returns (n: Scalar)
    requires 0xF0 <= a <= 0xF4 && 0x80 <= b <= 0xBF && 0x80 <= c <= 0xBF && 0x80 <= d <= 0xBF
    requires (a == 0xF0 ==> b >= 0x90) && (a == 0xF4 ==> b <= 0x8F)
    ensures Encode(n) == [a, b, c, d]
  {
    n := (a - 0xF0) * 262144 + (b - 0x80) * 4096 + (c - 0x80) * 64 + (d - 0x80);
    assert n / 4096 == (a - 0xF0) * 64 + (b - 0x80);
    assert n / 64 == (a - 0xF0) * 4096 + (b - 0x80) * 64 + (c - 0x80);
  }

  /** And whatever fits the table at the start of a valid string is a scalar value. */
  lemma FirstScalar(s: Bytes) returns (n: Scalar, w: nat)
    requires |s| > 0 && Valid(s)
    ensures 0 < w <= |s| && Encode(n) == s[..w] && Valid(s[w..])
  {
    if s[0] < 0x80 {
      n, w := s[0], 1;
      assert s[..1] == [s[0]];
    } else if s[0] < 0xE0 {
      w := 2;
      n := TwoOctets(s[0], s[1]);
      assert s[..2] == [s[0], s[1]];
    } else if s[0] < 0xF0 {
      w := 3;
      n := ThreeOctets(s[0], s[1], s[2]);
      assert s[..3] == [s[0], s[1], s[2]];
    } else {
      w := 4;
      n := FourOctets(s[0], s[1], s[2], s[3]);
      assert s[..4] == [s[0], s[1], s[2], s[3]];
    }
  }

  lemma {:induction false} EncodingsAreValid(cs: seq<Scalar>)
    ensures Valid(EncodeAll(cs))
  {
    if |cs| > 0 {
      EncodingsAreValid(cs[1..]);
      EncodedIsValid(cs[0], EncodeAll(cs[1..]));
    }
  }

  lemma {:induction false} Decoded(s: Bytes) returns (cs: seq<Scalar>)
    requires Valid(s)
    ensures EncodeAll(cs) == s
    decreases |s|
  {
    hide Valid, Encode;
    cs := [];
    if |s| > 0 {
      var n, w := FirstScalar(s);
      var rest := Decoded(s[w..]);
      cs := [n] + rest;
      assert cs[1..] == rest;
      assert s == s[..w] + s[w..];
    }
  }

  /** The test accepts exactly the encodings of sequences of scalar values. */
  lemma ValidExactlyWhen(s: Bytes)
    ensures Valid(s) <==> exists cs :: EncodeAll(cs) == s
  {
    hide Valid, EncodeAll;
    if Valid(s) {
      var cs := Decoded(s);
    }
    if exists cs :: EncodeAll(cs) == s {
      var cs :| EncodeAll(cs) == s;
      EncodingsAreValid(cs);
    }
  }
}
