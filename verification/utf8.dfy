/**
 * UTF-8 as the WHATWG Encoding Standard defines it: the encoder used before
 * percent-encoding, and the decoder ("UTF-8 decode without BOM") used by the
 * application/x-www-form-urlencoded parser, with U+FFFD for malformed input.
 */
module Utf8 {

  type Byte = x: int | 0 <= x < 256

  const Replacement: char := '\U{FFFD}'

  predicate IsScalar(cp: int)
  {
    0 <= cp < 0xD800 || 0xE000 <= cp < 0x11_0000
  }

  /** The UTF-8 bytes of one code point. */
  function EncodeChar(c: char): (r: seq<Byte>)
    ensures 1 <= |r| <= 4
    ensures (c as int < 0x80) <==> |r| == 1
    ensures |r| == 1 ==> r[0] == c as int
  {
    var n := c as int;
    if n < 0x80 then [n]
    else if n < 0x800 then [0xC0 + n / 64, 0x80 + n % 64]
    else if n < 0x1_0000 then [0xE0 + n / 4096, 0x80 + (n / 64) % 64, 0x80 + n % 64]
    else [0xF0 + n / 262144, 0x80 + (n / 4096) % 64, 0x80 + (n / 64) % 64, 0x80 + n % 64]
  }

  function Encode(s: string): seq<Byte>
  {
    if |s| == 0 then [] else EncodeChar(s[0]) + Encode(s[1..])
  }

  lemma {:induction false} EncodeAppend(a: string, b: string)
    ensures Encode(a + b) == Encode(a) + Encode(b)
    decreases |a|
  {
    if |a| == 0 {
      assert a + b == b;
    } else {
      assert (a + b)[1..] == a[1..] + b;
      EncodeAppend(a[1..], b);
    }
  }

  /** An ASCII string encodes to its code points, one byte each. */
  lemma {:induction false} EncodeAscii(s: string)
    requires forall i | 0 <= i < |s| :: s[i] as int < 0x80
    ensures |Encode(s)| == |s|
    ensures forall i | 0 <= i < |s| :: Encode(s)[i] == s[i] as int
    decreases |s|
  {
    if |s| > 0 {
      EncodeAscii(s[1..]);
    }
  }

  function ScalarToChar(cp: int): char
  {
    if IsScalar(cp) then cp as char else Replacement
  }

  /**
   * The WHATWG UTF-8 decoder run to the end of `bs`. A lead byte fixes how many
   * continuation bytes follow and the allowed range of the first of them (which rules
   * out overlong forms, surrogates and values above U+10FFFF).
   */
  function Decode(bs: seq<Byte>): string
    decreases |bs|, 0
  {
    if |bs| == 0 then ""
    else
      var b: int := bs[0];
      if b < 0x80 then [b as char] + Decode(bs[1..])
      else if 0xC2 <= b <= 0xDF then DecodeTail(bs[1..], 1, b - 0xC0, 0x80, 0xBF)
      else if 0xE0 <= b <= 0xEF then
        DecodeTail(bs[1..], 2, b - 0xE0, if b == 0xE0 then 0xA0 else 0x80, if b == 0xED then 0x9F else 0xBF)
      else if 0xF0 <= b <= 0xF4 then
        DecodeTail(bs[1..], 3, b - 0xF0, if b == 0xF0 then 0x90 else 0x80, if b == 0xF4 then 0x8F else 0xBF)
      else [Replacement] + Decode(bs[1..])
  }

  /**
   * The decoder in the middle of a sequence, `needed` continuation bytes still to come.
   * A byte out of range is an error and is processed again as the start of a new sequence;
   * the end of input in the middle of a sequence is one error.
   */
  function DecodeTail(bs: seq<Byte>, needed: nat, cp: int, lower: int, upper: int): string
    requires needed >= 1
    decreases |bs|, 1
  {
    if |bs| == 0 then [Replacement]
    else if bs[0] < lower || bs[0] > upper then [Replacement] + Decode(bs)
    else
      var cp' := cp * 64 + (bs[0] as int - 0x80);
      if needed == 1 then [ScalarToChar(cp')] + Decode(bs[1..])
      else DecodeTail(bs[1..], needed - 1, cp', 0x80, 0xBF)
  }

  lemma DecodeOne(c: char, rest: seq<Byte>)
    requires c as int < 0x80
    ensures Decode(EncodeChar(c) + rest) == [c] + Decode(rest)
  {
    var bs := EncodeChar(c) + rest;
    assert bs[1..] == rest;
  }

  lemma DecodeTwo(c: char, rest: seq<Byte>)
    requires 0x80 <= c as int < 0x800
    ensures Decode(EncodeChar(c) + rest) == [c] + Decode(rest)
  {
    var n := c as int;
    var b1: Byte := 0x80 + n % 64;
    var bs := EncodeChar(c) + rest;
    assert bs == [0xC0 + n / 64, b1] + rest;
    assert bs[1..] == [b1] + rest;
    assert ([b1] + rest)[1..] == rest;
    assert (n / 64) * 64 + n % 64 == n;
    assert ScalarToChar(n) == c;
  }

  lemma DecodeThree(c: char, rest: seq<Byte>)
    requires 0x800 <= c as int < 0x1_0000
    ensures Decode(EncodeChar(c) + rest) == [c] + Decode(rest)
  {
    var n := c as int;
    var b0: Byte := 0xE0 + n / 4096;
    var b1: Byte := 0x80 + (n / 64) % 64;
    var b2: Byte := 0x80 + n % 64;
    var t2 := [b2] + rest;
    var t1 := [b1] + t2;
    var bs := [b0] + t1;
    assert EncodeChar(c) + rest == bs;
    assert bs[1..] == t1 && t1[1..] == t2 && t2[1..] == rest;
    var lower := if b0 == 0xE0 then 0xA0 else 0x80;
    var upper := if b0 == 0xED then 0x9F else 0xBF;
    assert lower <= b1 <= upper;
    assert (n / 4096) * 64 + (n / 64) % 64 == n / 64;
    assert (n / 64) * 64 + n % 64 == n;
    calc {
      Decode(bs);
      DecodeTail(t1, 2, b0 - 0xE0, lower, upper);
      DecodeTail(t2, 1, n / 64, 0x80, 0xBF);
      [ScalarToChar(n)] + Decode(rest);
    }
    assert ScalarToChar(n) == c;
  }

  lemma DecodeFour(c: char, rest: seq<Byte>)
    requires 0x1_0000 <= c as int
    ensures Decode(EncodeChar(c) + rest) == [c] + Decode(rest)
  {
    var n := c as int;
    var b0: Byte := 0xF0 + n / 262144;
    var b1: Byte := 0x80 + (n / 4096) % 64;
    var b2: Byte := 0x80 + (n / 64) % 64;
    var b3: Byte := 0x80 + n % 64;
    var t3 := [b3] + rest;
    var t2 := [b2] + t3;
    var t1 := [b1] + t2;
    var bs := [b0] + t1;
    assert EncodeChar(c) + rest == bs;
    assert bs[1..] == t1 && t1[1..] == t2 && t2[1..] == t3 && t3[1..] == rest;
    var lower := if b0 == 0xF0 then 0x90 else 0x80;
    var upper := if b0 == 0xF4 then 0x8F else 0xBF;
    assert lower <= b1 <= upper;
    assert (n / 262144) * 64 + (n / 4096) % 64 == n / 4096;
    assert (n / 4096) * 64 + (n / 64) % 64 == n / 64;
    assert (n / 64) * 64 + n % 64 == n;
    calc {
      Decode(bs);
      DecodeTail(t1, 3, b0 - 0xF0, lower, upper);
      DecodeTail(t2, 2, n / 4096, 0x80, 0xBF);
      DecodeTail(t3, 1, n / 64, 0x80, 0xBF);
      [ScalarToChar(n)] + Decode(rest);
    }
    assert ScalarToChar(n) == c;
  }

  /** The decoder reads one encoded code point off the front of a byte sequence. */
  lemma DecodeEncodeChar(c: char, rest: seq<Byte>)
    ensures Decode(EncodeChar(c) + rest) == [c] + Decode(rest)
  {
    var n := c as int;
    if n < 0x80 { DecodeOne(c, rest); }
    else if n < 0x800 { DecodeTwo(c, rest); }
    else if n < 0x1_0000 { DecodeThree(c, rest); }
    else { DecodeFour(c, rest); }
  }

  /** Decoding inverts encoding for every string. */
  lemma {:induction false} DecodeEncode(s: string)
    ensures Decode(Encode(s)) == s
    decreases |s|
  {
    if |s| > 0 {
      DecodeEncodeChar(s[0], Encode(s[1..]));
      DecodeEncode(s[1..]);
      assert s == [s[0]] + s[1..];
    }
  }
}
