/**
 * The application/x-www-form-urlencoded serializer that `URLSearchParams.toString()`
 * runs (section 5.2 of the WHATWG URL Standard), and the parser of section 5.1,
 * which reads every serialized parameter list back unchanged.
 */
module FormUrlencoded {
  import opened Optional
  import opened SeqUtil
  import opened JsText
  import opened Utf8

  /** One `(name, value)` entry of a `URLSearchParams` list, in append order. */
  type Param = (string, string)

  /** The bytes the form-urlencoded percent-encode set leaves as they are: ASCII alphanumerics and `*-._`. */
  predicate IsUnreserved(b: Byte)
  {
    || 0x30 <= b <= 0x39 || 0x41 <= b <= 0x5A || 0x61 <= b <= 0x7A
    || b == 0x2A || b == 0x2D || b == 0x2E || b == 0x5F
  }

  /** Upper-case hexadecimal digit, as percent-encoding writes it. */
  function HexDigit(d: int): char
    requires 0 <= d < 16
  {
    if d < 10 then ('0' as int + d) as char else ('A' as int + d - 10) as char
  }

  /** One byte of a name or value: space becomes `+`, unreserved bytes stay, the rest become `%XY`. */
  function EncodeByte(b: Byte): (r: string)
    ensures '&' !in r && '=' !in r
  {
    if b == 0x20 then "+"
    else if IsUnreserved(b) then [b as char]
    else ['%', HexDigit(b / 16), HexDigit(b % 16)]
  }

  function EncodeBytes(bs: seq<Byte>): (r: string)
    ensures '&' !in r && '=' !in r
  {
    if |bs| == 0 then "" else EncodeByte(bs[0]) + EncodeBytes(bs[1..])
  }

  /** A name or value: UTF-8 encoded, then percent-encoded with space as `+`. */
  function EncodeComponent(s: string): (r: string)
    ensures '&' !in r && '=' !in r
  {
    EncodeBytes(Utf8.Encode(s))
  }

  function SerializePair(p: Param): string
  {
    EncodeComponent(p.0) + "=" + EncodeComponent(p.1)
  }

  /** `URLSearchParams.toString()`: the encoded pairs joined by `&`. */
  function Serialize(ps: seq<Param>): (r: string)
    ensures r == "" <==> |ps| == 0
  {
    var pieces := seq(|ps|, i requires 0 <= i < |ps| => SerializePair(ps[i]));
    JoinPairs(ps, pieces);
    Join(pieces, '&')
  }

  /** Joined pairs are empty only without pairs. */
  lemma JoinPairs(ps: seq<Param>, pieces: seq<string>)
    requires |pieces| == |ps|
    requires forall i | 0 <= i < |ps| :: pieces[i] == SerializePair(ps[i])
    ensures Join(pieces, '&') == "" <==> |ps| == 0
  {
    if |ps| > 0 {
      assert |pieces[0]| > 0 by {
        assert |SerializePair(ps[0])| == |EncodeComponent(ps[0].0)| + 1 + |EncodeComponent(ps[0].1)|;
      }
      if |pieces| > 1 {
        assert |Join(pieces, '&')| >= |pieces[0]|;
      }
    }
  }

  /* ---------------------------------------------------------------------------------- */
  /* The parser of section 5.1, used as the serializer's inverse.                      */
  /* Splitting is done on code points; as `&`, `=` and `+` are ASCII and never occur     */
  /* inside a multi-byte UTF-8 sequence, this is the same as splitting the bytes.       */

  function ReplacePlus(s: string): (r: string)
    ensures |r| == |s|
  {
    seq(|s|, i requires 0 <= i < |s| => if s[i] == '+' then ' ' else s[i])
  }

  predicate IsHexByte(b: Byte)
  {
    0x30 <= b <= 0x39 || 0x41 <= b <= 0x46 || 0x61 <= b <= 0x66
  }

  function HexByteValue(b: Byte): (v: int)
    requires IsHexByte(b)
    ensures 0 <= v < 16
  {
    if b <= 0x39 then b - 0x30 else if b <= 0x46 then b - 0x41 + 10 else b - 0x61 + 10
  }

  /** Percent-decoding: `%` and two hexadecimal digits become that byte; every other byte stays. */
  function PercentDecode(bs: seq<Byte>): seq<Byte>
  {
    if |bs| == 0 then []
    else if bs[0] == 0x25 && |bs| >= 3 && IsHexByte(bs[1]) && IsHexByte(bs[2]) then
      [HexByteValue(bs[1]) * 16 + HexByteValue(bs[2])] + PercentDecode(bs[3..])
    else [bs[0]] + PercentDecode(bs[1..])
  }

  function DecodeComponent(s: string): string
  {
    Utf8.Decode(PercentDecode(Utf8.Encode(ReplacePlus(s))))
  }

  /** One non-empty piece between `&`s: name before the first `=`, value after it (empty if none). */
  function ParsePiece(piece: string): Param
  {
    match FirstIndex(piece, c => c == '=')
    case None => (DecodeComponent(piece), "")
    case Some(i) => (DecodeComponent(piece[..i]), DecodeComponent(piece[i + 1..]))
  }

  function ParsePieces(pieces: seq<string>): seq<Param>
  {
    if |pieces| == 0 then []
    else (if pieces[0] == "" then [] else [ParsePiece(pieces[0])]) + ParsePieces(pieces[1..])
  }

  /** The application/x-www-form-urlencoded parser. */
  function Parse(input: string): seq<Param>
  {
    ParsePieces(Split(input, '&'))
  }

  /* ---------------------------------------------------------------------------------- */

  lemma ReplacePlusAppend(a: string, b: string)
    ensures ReplacePlus(a + b) == ReplacePlus(a) + ReplacePlus(b)
  {
  }

  lemma EncodeBytesAppend(a: seq<Byte>, b: seq<Byte>)
    ensures EncodeBytes(a + b) == EncodeBytes(a) + EncodeBytes(b)
    decreases |a|
  {
    if |a| == 0 {
      assert a + b == b;
    } else {
      assert (a + b)[1..] == a[1..] + b;
      EncodeBytesAppend(a[1..], b);
    }
  }

  /** Decoding reads the byte back off the front of its own encoding. */
  lemma PercentDecodeEncodedByte(b: Byte, rest: seq<Byte>)
    ensures PercentDecode(Utf8.Encode(ReplacePlus(EncodeByte(b))) + rest) == [b] + PercentDecode(rest)
  {
    var e := EncodeByte(b);
    if b == 0x20 {
      assert ReplacePlus(e) == " ";
      assert Utf8.Encode(" ") == [0x20];
      assert ([0x20] + rest)[1..] == rest;
    } else if IsUnreserved(b) {
      assert ReplacePlus(e) == e;
      assert Utf8.Encode(e) == [b];
      assert ([b] + rest)[1..] == rest;
    } else {
      var hi := b / 16;
      var lo := b % 16;
      assert ReplacePlus(e) == e;
      EncodeAscii(e);
      var bs := Utf8.Encode(e);
      assert |bs| == 3 && bs[0] == 0x25;
      assert bs[1] == HexDigit(hi) as int && bs[2] == HexDigit(lo) as int;
      assert IsHexByte(bs[1]) && HexByteValue(bs[1]) == hi;
      assert IsHexByte(bs[2]) && HexByteValue(bs[2]) == lo;
      assert (bs + rest)[3..] == rest;
      assert (bs + rest)[1] == bs[1] && (bs + rest)[2] == bs[2];
    }
  }

  lemma {:induction false} PercentDecodeEncodeBytes(bs: seq<Byte>)
    ensures PercentDecode(Utf8.Encode(ReplacePlus(EncodeBytes(bs)))) == bs
    decreases |bs|
  {
    if |bs| > 0 {
      var head := EncodeByte(bs[0]);
      var tail := EncodeBytes(bs[1..]);
      ReplacePlusAppend(head, tail);
      EncodeAppend(ReplacePlus(head), ReplacePlus(tail));
      PercentDecodeEncodedByte(bs[0], Utf8.Encode(ReplacePlus(tail)));
      PercentDecodeEncodeBytes(bs[1..]);
      assert bs == [bs[0]] + bs[1..];
    }
  }

  /** Every name and value is decoded back to the string that was encoded. */
  lemma DecodeEncodeComponent(s: string)
    ensures DecodeComponent(EncodeComponent(s)) == s
  {
    PercentDecodeEncodeBytes(Utf8.Encode(s));
    DecodeEncode(s);
  }

  lemma ParseSerializedPair(p: Param)
    ensures SerializePair(p) != ""
    ensures ParsePiece(SerializePair(p)) == p
  {
    var n := EncodeComponent(p.0);
    var piece := SerializePair(p);
    assert piece[|n|] == '=';
    assert piece[..|n|] == n;
    assert piece[|n| + 1..] == EncodeComponent(p.1);
    var i := FirstIndex(piece, c => c == '=');
    assert i == Some(|n|);
    DecodeEncodeComponent(p.0);
    DecodeEncodeComponent(p.1);
  }

  lemma {:induction false} ParsePiecesOfSerialized(ps: seq<Param>)
    ensures ParsePieces(seq(|ps|, i requires 0 <= i < |ps| => SerializePair(ps[i]))) == ps
    decreases |ps|
  {
    var pieces := seq(|ps|, i requires 0 <= i < |ps| => SerializePair(ps[i]));
    if |ps| > 0 {
      ParseSerializedPair(ps[0]);
      ParsePiecesOfSerialized(ps[1..]);
      assert pieces[1..] == seq(|ps[1..]|, i requires 0 <= i < |ps[1..]| => SerializePair(ps[1..][i]));
      assert ps == [ps[0]] + ps[1..];
    }
  }

  /** `URLSearchParams` serialization loses nothing: parsing the query gives the list back. */
  lemma ParseSerialize(ps: seq<Param>)
    ensures Parse(Serialize(ps)) == ps
  {
    var pieces := seq(|ps|, i requires 0 <= i < |ps| => SerializePair(ps[i]));
    if |ps| == 0 {
      assert Serialize(ps) == "";
      assert Split("", '&') == [""];
    } else {
      forall k | 0 <= k < |pieces| ensures '&' !in pieces[k] {
        assert pieces[k] == EncodeComponent(ps[k].0) + "=" + EncodeComponent(ps[k].1);
      }
      SplitJoin(pieces, '&');
      ParsePiecesOfSerialized(ps);
    }
  }

  /** A name or value made only of unreserved ASCII code points is written as it is. */
  lemma {:induction false} EncodeUnreserved(s: string)
    requires forall i | 0 <= i < |s| :: s[i] as int < 0x80 && IsUnreserved(s[i] as int)
    ensures EncodeComponent(s) == s
    decreases |s|
  {
    if |s| > 0 {
      assert Utf8.Encode(s) == EncodeChar(s[0]) + Utf8.Encode(s[1..]);
      EncodeBytesAppend(EncodeChar(s[0]), Utf8.Encode(s[1..]));
      assert EncodeChar(s[0]) == [s[0] as int];
      assert EncodeBytes([s[0] as int]) == [s[0]];
      EncodeUnreserved(s[1..]);
      assert s == [s[0]] + s[1..];
    }
  }

  lemma EncodeComponentAppend(a: string, b: string)
    ensures EncodeComponent(a + b) == EncodeComponent(a) + EncodeComponent(b)
  {
    EncodeAppend(a, b);
    EncodeBytesAppend(Utf8.Encode(a), Utf8.Encode(b));
  }

  /** A list with more than one pair serializes as its first pair, `&`, and the rest. */
  lemma SerializeCons(p: Param, ps: seq<Param>)
    requires |ps| > 0
    ensures Serialize([p] + ps) == SerializePair(p) + "&" + Serialize(ps)
  {
    var all := [p] + ps;
    var pieces := seq(|all|, i requires 0 <= i < |all| => SerializePair(all[i]));
    assert pieces[1..] == seq(|ps|, i requires 0 <= i < |ps| => SerializePair(ps[i]));
  }

  lemma SerializeSingle(p: Param)
    ensures Serialize([p]) == SerializePair(p)
  {
  }

  lemma SerializeTwo(p: Param, q: Param)
    ensures Serialize([p, q]) == SerializePair(p) + "&" + SerializePair(q)
  {
    SerializeCons(p, [q]);
    assert [p] + [q] == [p, q];
  }

  lemma SerializeFour(p0: Param, p1: Param, p2: Param, p3: Param)
    ensures Serialize([p0, p1, p2, p3])
         == SerializePair(p0) + "&" + SerializePair(p1) + "&" + SerializePair(p2) + "&" + SerializePair(p3)
  {
    SerializeTwo(p2, p3);
    SerializeCons(p1, [p2, p3]);
    assert [p1] + [p2, p3] == [p1, p2, p3];
    SerializeCons(p0, [p1, p2, p3]);
    assert [p0] + [p1, p2, p3] == [p0, p1, p2, p3];
  }
}
