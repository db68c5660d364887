/** Well-formed UTF-8, as section 4 of RFC 3629 lays it out. */
module Utf8 {
  import opened Bytes

  /** A continuation byte stands at position i. */
  predicate Tail(s: seq<Byte>, i: nat) {
    i < |s| && 0x80 <= s[i] <= 0xBF
  }

  /** The length of the well-formed sequence at the front of `s`, or 0 if there is none. */
  function SequenceLength(s: seq<Byte>): (n: nat)
    ensures n <= |s| && n <= 4
  {
    if s == [] then 0
    else if s[0] <= 0x7F then 1
    else if 0xC2 <= s[0] <= 0xDF && Tail(s, 1) then 2
    else if 0xE0 <= s[0] <= 0xEF && Tail(s, 1) && Tail(s, 2)
            && (s[0] == 0xE0 ==> s[1] >= 0xA0) && (s[0] == 0xED ==> s[1] <= 0x9F) then 3
    else if 0xF0 <= s[0] <= 0xF4 && Tail(s, 1) && Tail(s, 2) && Tail(s, 3)
            && (s[0] == 0xF0 ==> s[1] >= 0x90) && (s[0] == 0xF4 ==> s[1] <= 0x8F) then 4
    else 0
  }

  predicate ValidUtf8(s: seq<Byte>)
    decreases |s|
  {
    s == [] || (SequenceLength(s) > 0 && ValidUtf8(s[SequenceLength(s)..]))
  }

  // ---------------------------------------------------------------------------------------------
  // What validity means
  // ---------------------------------------------------------------------------------------------

  /** A Unicode scalar value: any code point but the surrogates. */
  type Scalar = c: nat | c < 0xD800 || 0xE000 <= c < 0x11_0000

  /** The one encoding of a scalar value, by section 3 of RFC 3629. */
  function EncodeScalar(c: Scalar): (s: seq<Byte>)
    ensures 1 <= |s| <= 4
  {
    if c < 0x80 then [c]
    else if c < 0x800 then [0xC0 + c / 64, 0x80 + c % 64]
    else if c < 0x1_0000 then [0xE0 + c / 4096, 0x80 + c / 64 % 64, 0x80 + c % 64]
    else [0xF0 + c / 0x4_0000, 0x80 + c / 4096 % 64, 0x80 + c / 64 % 64, 0x80 + c % 64]
  }

  function EncodeText(text: seq<Scalar>): seq<Byte> {
    if text == [] then [] else EncodeScalar(text[0]) + EncodeText(text[1..])
  }

  lemma ScalarIsFront(c: Scalar, rest: seq<Byte>)
    ensures SequenceLength(EncodeScalar(c) + rest) == |EncodeScalar(c)|
  {
    var s := EncodeScalar(c) + rest;
    assert forall i :: 0 <= i < |EncodeScalar(c)| ==> s[i] == EncodeScalar(c)[i];
    if 0x800 <= c < 0x1_0000 {
      ThirdPlane(c);
    } else if 0x1_0000 <= c {
      FourthPlane(c);
    }
  }

  /** Neither an overlong form nor a surrogate is an encoding. */
  lemma ThirdPlane(c: Scalar)
    requires 0x800 <= c < 0x1_0000
    ensures c / 4096 == 0 ==> c / 64 % 64 >= 0x20
    ensures c / 4096 == 13 ==> c / 64 % 64 < 0x20
    ensures c / 4096 < 16
  {
  }

  lemma FourthPlane(c: Scalar)
    requires 0x1_0000 <= c
    ensures c / 0x4_0000 == 0 ==> c / 4096 % 64 >= 0x10
    ensures c / 0x4_0000 == 4 ==> c / 4096 % 64 < 0x10
    ensures c / 0x4_0000 <= 4
  {
  }

  lemma SplitTwo(a: nat, b: nat)
    requires b < 64
    ensures (a * 64 + b) / 64 == a && (a * 64 + b) % 64 == b
  {
  }

  lemma SplitThree(a: nat, b: nat, d: nat)
    requires b < 64 && d < 64
    ensures var c := a * 4096 + b * 64 + d;
      c / 4096 == a && c / 64 == a * 64 + b && c / 64 % 64 == b && c % 64 == d
  {
    SplitTwo(a * 64 + b, d);
    SplitTwo(a, b);
  }

  lemma SplitFour(a: nat, b: nat, d: nat, e: nat)
    requires b < 64 && d < 64 && e < 64
    ensures var c := a * 0x4_0000 + b * 4096 + d * 64 + e;
      c / 0x4_0000 == a && c / 4096 % 64 == b && c / 64 % 64 == d && c % 64 == e
  {
    SplitTwo(a * 4096 + b * 64 + d, e);
    SplitThree(a, b, d);
  }

  lemma ThreeBytes(s: seq<Byte>) returns (c: Scalar)
    requires SequenceLength(s) == 3
    ensures EncodeScalar(c) == s[..3]
  {
    var a: nat, b: nat, d: nat := s[0] - 0xE0, s[1] - 0x80, s[2] - 0x80;
    SplitThree(a, b, d);
    c := a * 4096 + b * 64 + d;
  }

  lemma FourBytes(s: seq<Byte>) returns (c: Scalar)
    requires SequenceLength(s) == 4
    ensures EncodeScalar(c) == s[..4]
  {
    var a: nat, b: nat, d: nat, e: nat := s[0] - 0xF0, s[1] - 0x80, s[2] - 0x80, s[3] - 0x80;
    SplitFour(a, b, d, e);
    c := a * 0x4_0000 + b * 4096 + d * 64 + e;
  }

  lemma FrontIsScalar(s: seq<Byte>) returns (c: Scalar)
    requires SequenceLength(s) > 0
    ensures EncodeScalar(c) == s[..SequenceLength(s)]
  {
    var n := SequenceLength(s);
    if n == 1 {
      c := s[0];
    } else if n == 2 {
      var a: nat, b: nat := s[0] - 0xC0, s[1] - 0x80;
      SplitTwo(a, b);
      c := a * 64 + b;
    } else if n == 3 {
      c := ThreeBytes(s);
    } else {
      c := FourBytes(s);
    }
  }

  lemma {:induction false} EncodedIsValid(text: seq<Scalar>)
    ensures ValidUtf8(EncodeText(text))
  {
    if text != [] {
      hide SequenceLength;
      var front, rest := EncodeScalar(text[0]), EncodeText(text[1..]);
      EncodedIsValid(text[1..]);
      ScalarIsFront(text[0], rest);
      assert (front + rest)[|front|..] == rest;
    }
  }

  lemma ValidBehindFront(s: seq<Byte>)
    requires ValidUtf8(s) && s != []
    ensures 0 < SequenceLength(s) <= |s| && ValidUtf8(s[SequenceLength(s)..])
  {
  }

  lemma TwoParts(s: seq<Byte>, n: nat)
    requires n <= |s|
    ensures s[..n] + s[n..] == s
  {
  }

  lemma EncodeFirst(c: Scalar, text: seq<Scalar>)
    ensures EncodeText([c] + text) == EncodeScalar(c) + EncodeText(text)
  {
    assert ([c] + text)[1..] == text;
  }

  lemma {:induction false} ValidIsEncoded(s: seq<Byte>) returns (text: seq<Scalar>)
    requires ValidUtf8(s)
    ensures EncodeText(text) == s
    decreases |s|
  {
    if s == [] {
      text := [];
    } else {
      hide *;
      ValidBehindFront(s);
      var n := SequenceLength(s);
      var c := FrontIsScalar(s);
      var rest := ValidIsEncoded(s[n..]);
      EncodeFirst(c, rest);
      TwoParts(s, n);
      text := [c] + rest;
    }
  }

  /** Bytes are valid UTF-8 exactly when they are the encoding of some text. */
  lemma ValidIffEncoded(s: seq<Byte>)
    ensures ValidUtf8(s) <==> exists text :: EncodeText(text) == s
  {
    if ValidUtf8(s) {
      var text := ValidIsEncoded(s);
    }
    if text :| EncodeText(text) == s {
      EncodedIsValid(text);
    }
  }
}
