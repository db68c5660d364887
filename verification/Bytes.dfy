/** Byte strings: fixed-width integers, length prefixes, lower-case hex, and an append-only buffer. */
module Bytes {

  type Byte = b: int | 0 <= b < 256

  /** A byte string whose length a 64-bit length prefix can hold, as every slice in memory is. */
  type Blob = s: seq<Byte> | |s| < 0x1_0000_0000_0000_0000

  /** A SHA-384 digest. */
  type Digest = s: seq<Byte> | |s| == 48 witness seq(48, _ => 0)

  /** 256 to the power `width`. */
  function Pow256(width: nat): (p: nat)
    ensures p > 0
  {
    if width == 0 then 1 else 256 * Pow256(width - 1)
  }

  lemma Pow256Values()
    ensures Pow256(2) == 0x1_0000 && Pow256(4) == 0x1_0000_0000 && Pow256(8) == 0x1_0000_0000_0000_0000
  {
  }

  /** The low `width` bytes of v, most significant first. */
  function BigEndian(v: nat, width: nat): (s: seq<Byte>)
    ensures |s| == width
  {
    if width == 0 then [] else BigEndian(v / 256, width - 1) + [v % 256]
  }

  function FromBigEndian(s: seq<Byte>): nat {
    if s == [] then 0 else 256 * FromBigEndian(s[..|s| - 1]) + s[|s| - 1]
  }

  /** The low `width` bytes of v, least significant first. */
  function LittleEndian(v: nat, width: nat): (s: seq<Byte>)
    ensures |s| == width
  {
    if width == 0 then [] else [v % 256] + LittleEndian(v / 256, width - 1)
  }

  function FromLittleEndian(s: seq<Byte>): nat {
    if s == [] then 0 else s[0] + 256 * FromLittleEndian(s[1..])
  }

  lemma {:induction false} BigEndianRoundTrip(v: nat, width: nat)
    requires v < Pow256(width)
    ensures FromBigEndian(BigEndian(v, width)) == v
  {
    if width > 0 {
      BigEndianRoundTrip(v / 256, width - 1);
      var s := BigEndian(v, width);
      assert s[..|s| - 1] == BigEndian(v / 256, width - 1);
    }
  }

  lemma {:induction false} FromBigEndianRoundTrip(s: seq<Byte>)
    ensures FromBigEndian(s) < Pow256(|s|)
    ensures BigEndian(FromBigEndian(s), |s|) == s
  {
    if s != [] {
      FromBigEndianRoundTrip(s[..|s| - 1]);
      var hi := FromBigEndian(s[..|s| - 1]);
      assert FromBigEndian(s) / 256 == hi && FromBigEndian(s) % 256 == s[|s| - 1];
      assert s == s[..|s| - 1] + [s[|s| - 1]];
    }
  }

  lemma {:induction false} LittleEndianRoundTrip(v: nat, width: nat)
    requires v < Pow256(width)
    ensures FromLittleEndian(LittleEndian(v, width)) == v
  {
    if width > 0 {
      LittleEndianRoundTrip(v / 256, width - 1);
      assert LittleEndian(v, width)[1..] == LittleEndian(v / 256, width - 1);
    }
  }

  /** The last two bytes of an integer, the more significant first. */
  lemma LastTwoBytes(v: nat, width: nat)
    ensures BigEndian(v, width + 2) == BigEndian(v / 0x1_0000, width) + [v / 0x100 % 256, v % 256]
  {
    var v1, rest := v / 256, BigEndian(v / 0x1_0000, width);
    assert v1 / 256 == v / 0x1_0000;
    assert BigEndian(v, width + 2) == BigEndian(v1, width + 1) + [v % 256];
    assert BigEndian(v1, width + 1) == BigEndian(v1 / 256, width) + [v1 % 256];
    hide BigEndian;
    assert rest + [v1 % 256] + [v % 256] == rest + [v1 % 256, v % 256];
  }

  /** The bytes of a 16- and of a 32-bit integer on the wire; one of 64 bits is two of 32. */
  lemma BigEndianBytes(v: nat)
    ensures BigEndian(v, 2) == [v / 0x100 % 256, v % 256]
    ensures BigEndian(v, 4) == [v / 0x100_0000 % 256, v / 0x1_0000 % 256, v / 0x100 % 256, v % 256]
    ensures BigEndian(v, 8) == BigEndian(v / 0x1_0000_0000, 4) + BigEndian(v, 4)
  {
    var hi := v / 0x1_0000;
    FourBytesOnTop(v);
    assert BigEndian(hi, 0) == [] && BigEndian(hi / 0x1_0000, 0) == [];
    assert hi / 0x100 == v / 0x100_0000;
    LastTwoBytes(v, 0);
    LastTwoBytes(v, 2);
    LastTwoBytes(hi, 0);
    hide BigEndian;
  }

  lemma FourBytesOnTop(v: nat)
    ensures BigEndian(v, 8) == BigEndian(v / 0x1_0000_0000, 4) + BigEndian(v, 4)
  {
    var hi, upper := v / 0x1_0000, v / 0x1_0000_0000;
    assert hi / 0x1_0000 == upper;
    LastTwoBytes(v, 6);
    LastTwoBytes(hi, 4);
    LastTwoBytes(v, 2);
    LastTwoBytes(hi, 0);
    assert BigEndian(upper, 0) == [];
    hide BigEndian;
    var four, last, next := BigEndian(upper, 4), [v / 0x100 % 256, v % 256], [hi / 0x100 % 256, hi % 256];
    assert BigEndian(v, 8) == four + next + last && BigEndian(v, 4) == next + last;
    assert four + next + last == four + (next + last);
  }

  /** The bytes of a 32-bit integer, least significant first. */
  lemma LittleEndianBytes(v: nat)
    ensures LittleEndian(v, 4) == [v % 256, v / 0x100 % 256, v / 0x1_0000 % 256, v / 0x100_0000 % 256]
  {
    var v1, v2, v3 := v / 0x100, v / 0x1_0000, v / 0x100_0000;
    assert v1 / 256 == v2 && v2 / 256 == v3;
    assert LittleEndian(v, 4) == [v % 256] + LittleEndian(v1, 3);
    assert LittleEndian(v1, 3) == [v1 % 256] + LittleEndian(v2, 2);
    assert LittleEndian(v2, 2) == [v2 % 256] + LittleEndian(v3, 1);
    assert LittleEndian(v3, 1) == [v3 % 256] + LittleEndian(v3 / 256, 0);
    hide LittleEndian;
  }

  // ---------------------------------------------------------------------------------------------
  // Length prefixes
  // ---------------------------------------------------------------------------------------------

  /** `s` behind its length as a big-endian integer of `width` bytes. */
  function Lp(width: nat, s: seq<Byte>): seq<Byte> {
    BigEndian(|s|, width) + s
  }

  /** The prefix is the field's length, most significant byte first; the field stands behind it. */
  lemma LpLayout(width: nat, s: seq<Byte>)
    ensures |Lp(width, s)| == width + |s|
    ensures Lp(width, s)[..width] == BigEndian(|s|, width) && Lp(width, s)[width..] == s
  {
    hide BigEndian;
  }

  /** A length-prefixed field can be read off the front of a longer string in one way only. */
  lemma LpInjective(width: nat, x: seq<Byte>, s: seq<Byte>, y: seq<Byte>, t: seq<Byte>)
    requires |x| < Pow256(width) && |y| < Pow256(width)
    requires Lp(width, x) + s == Lp(width, y) + t
    ensures x == y && s == t
  {
    var xs, yt := Lp(width, x) + s, Lp(width, y) + t;
    assert xs[..width] == BigEndian(|x|, width) && yt[..width] == BigEndian(|y|, width);
    BigEndianRoundTrip(|x|, width);
    BigEndianRoundTrip(|y|, width);
    assert xs[width..width + |x|] == x && yt[width..width + |y|] == y;
    assert xs[width + |x|..] == s && yt[width + |y|..] == t;
  }

  /** Two prefixed fields behind a common start are both determined. */
  lemma LpPairInjective(start: seq<Byte>, x: Blob, y: Blob, x': Blob, y': Blob)
    requires start + Lp(8, x) + Lp(8, y) == start + Lp(8, x') + Lp(8, y')
    ensures x == x' && y == y'
  {
    hide Lp;
    Pow256Values();
    assert start + Lp(8, x) + Lp(8, y) == start + (Lp(8, x) + Lp(8, y));
    assert start + Lp(8, x') + Lp(8, y') == start + (Lp(8, x') + Lp(8, y'));
    FixedInjective(start, Lp(8, x) + Lp(8, y), start, Lp(8, x') + Lp(8, y'));
    LpInjective(8, x, Lp(8, y), x', Lp(8, y'));
    assert Lp(8, y) + [] == Lp(8, y) && Lp(8, y') + [] == Lp(8, y');
    LpInjective(8, y, [], y', []);
  }

  /** Two fields of one length are split at the same place. */
  lemma FixedInjective(x: seq<Byte>, s: seq<Byte>, y: seq<Byte>, t: seq<Byte>)
    requires |x| == |y| && x + s == y + t
    ensures x == y && s == t
  {
    assert (x + s)[..|x|] == x && (y + t)[..|y|] == y;
    assert (x + s)[|x|..] == s && (y + t)[|y|..] == t;
  }

  // ---------------------------------------------------------------------------------------------
  // Text
  // ---------------------------------------------------------------------------------------------

  /** The bytes of an ASCII string. */
  function Ascii(s: string): (b: seq<Byte>)
    ensures |b| == |s|
  {
    seq(|s|, i requires 0 <= i < |s| => s[i] as int % 256)
  }

  type Nibble = n: int | 0 <= n < 16

  /** The ASCII code of a lower-case hex digit. */
  function HexCode(n: Nibble): (c: Byte)
    ensures 48 <= c < 58 || 97 <= c < 103
  {
    if n < 10 then 48 + n else 87 + n
  }

  function Hex(s: seq<Byte>): (h: seq<Byte>)
    ensures |h| == 2 * |s|
  {
    if s == [] then [] else [HexCode(s[0] / 16), HexCode(s[0] % 16)] + Hex(s[1..])
  }

  const HEX_DIGITS := "0123456789abcdef"

  lemma HexCodeIsDigit(n: Nibble)
    ensures HexCode(n) == HEX_DIGITS[n] as int
  {
  }

  /** Byte i is written as the digit of its high half and then the digit of its low half. */
  lemma {:induction false} HexAt(s: seq<Byte>, i: nat)
    requires i < |s|
    ensures Hex(s)[2 * i] == HEX_DIGITS[s[i] / 16] as int && Hex(s)[2 * i + 1] == HEX_DIGITS[s[i] % 16] as int
    decreases |s|
  {
    HexCodeIsDigit(s[0] / 16);
    HexCodeIsDigit(s[0] % 16);
    hide HexCode;
    if i > 0 {
      HexAt(s[1..], i - 1);
      assert Hex(s)[2..] == Hex(s[1..]);
      assert Hex(s)[2 * i] == Hex(s)[2..][2 * (i - 1)] && Hex(s)[2 * i + 1] == Hex(s)[2..][2 * (i - 1) + 1];
    }
  }

  lemma {:induction false} HexInjective(s: seq<Byte>, t: seq<Byte>)
    requires Hex(s) == Hex(t)
    ensures s == t
  {
    if s != [] && t != [] {
      assert Hex(s)[0] == Hex(t)[0] && Hex(s)[1] == Hex(t)[1];
      assert s[0] == t[0];
      assert Hex(s)[2..] == Hex(s[1..]) && Hex(t)[2..] == Hex(t[1..]);
      HexInjective(s[1..], t[1..]);
      assert s == [s[0]] + s[1..] && t == [t[0]] + t[1..];
    } else {
      assert |s| == |t|;
    }
  }

  /** A growing output buffer. */
  class Buffer {
    var data: seq<Byte>

    constructor ()
      ensures data == []
    {
      data := [];
    }

    method Append(s: seq<Byte>)
      modifies this
      ensures data == old(data) + s
    {
      data := data + s;
    }

    /** Append a length prefix of `width` bytes and the field behind it. */
    method PushLp(width: nat, s: seq<Byte>)
      modifies this
      ensures data == old(data) + Lp(width, s)
    {
      Append(BigEndian(|s|, width));
      Append(s);
      assert old(data) + BigEndian(|s|, width) + s == old(data) + Lp(width, s);
    }
  }
}
