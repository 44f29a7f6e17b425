/**
 * The text layer of embedding storage: padded base64 with the standard
 * alphabet of section 4 of RFC 4648, without line breaks (Android's
 * `Base64.NO_WRAP`). The decoder is strict padded base64: whole four-character
 * groups, padding only in the last one, and the pad bits are not checked;
 * `None` stands for the IllegalArgumentException of `Base64.decode`.
 */
module Base64 {
  import opened Wrappers

  type byte = x: int | 0 <= x < 256
  type sextet = x: int | 0 <= x < 64

  /** The character for a 6-bit value: A-Z, a-z, 0-9, '+', '/'. */
  function Char(v: sextet): char
  {
    if v < 26 then ('A' as int + v) as char
    else if v < 52 then ('a' as int + (v - 26)) as char
    else if v < 62 then ('0' as int + (v - 52)) as char
    else if v == 62 then '+'
    else '/'
  }

  /** The 6-bit value of an alphabet character; `None` for any other character, padding included. */
  function Value(c: char): Option<sextet>
  {
    if 'A' <= c <= 'Z' then Some(c as int - 'A' as int)
    else if 'a' <= c <= 'z' then Some(c as int - 'a' as int + 26)
    else if '0' <= c <= '9' then Some(c as int - '0' as int + 52)
    else if c == '+' then Some(62)
    else if c == '/' then Some(63)
    else None
  }

  lemma ValueOfChar(v: sextet)
    ensures Value(Char(v)) == Some(v)
  {
  }

  /** Three bytes become four characters. */
  function Quad(b0: byte, b1: byte, b2: byte): string
  {
    [Char(b0 / 4), Char((b0 % 4) * 16 + b1 / 16), Char((b1 % 16) * 4 + b2 / 64), Char(b2 % 64)]
  }

  /** `Encode`: every three bytes make four characters; a final one or two bytes are padded with '='. */
  function Encode(b: seq<byte>): (s: string)
    ensures |s| % 4 == 0 && (|b| > 0 <==> |s| >= 4)
    decreases |b|
  {
    if |b| == 0 then []
    else if |b| == 1 then [Char(b[0] / 4), Char((b[0] % 4) * 16), '=', '=']
    else if |b| == 2 then [Char(b[0] / 4), Char((b[0] % 4) * 16 + b[1] / 16), Char((b[1] % 16) * 4), '=']
    else Quad(b[0], b[1], b[2]) + Encode(b[3..])
  }

  /** Every started group of three bytes takes four characters. */
  lemma {:induction false} EncodeLength(b: seq<byte>)
    ensures |Encode(b)| == 4 * ((|b| + 2) / 3)
    decreases |b|
  {
    if |b| > 3 {
      EncodeLength(b[3..]);
      assert |Encode(b)| == 4 + |Encode(b[3..])|;
      assert (|b| + 2) / 3 == (|b[3..]| + 2) / 3 + 1;
    }
  }

  /** Four characters back to bytes; padding is accepted only in the `last` group. */
  function DecodeQuad(q: string, last: bool): (r: Option<seq<byte>>)
    requires |q| == 4
    ensures r.Some? ==> 1 <= |r.value| <= 3 && (!last ==> |r.value| == 3)
  {
    var v0, v1 := Value(q[0]), Value(q[1]);
    if v0.None? || v1.None? then None
    else
      var c0, c1 := v0.value, v1.value;
      var b0 := c0 * 4 + c1 / 16;
      if last && q[2] == '=' && q[3] == '=' then Some([b0])
      else
        match Value(q[2])
        case None => None
        case Some(c2) =>
          var b1 := (c1 % 16) * 16 + c2 / 4;
          if last && q[3] == '=' then Some([b0, b1])
          else
            match Value(q[3])
            case None => None
            case Some(c3) => Some([b0, b1, (c2 % 4) * 64 + c3])
  }

  /**
   * Strict decoding: the text is whole groups of four characters, padding only in the last one,
   * and every group but the last gives three bytes.
   */
  function Decode(s: string): (r: Option<seq<byte>>)
    ensures r.Some? ==> |s| % 4 == 0
    ensures r.Some? ==> |s| / 4 * 3 - 2 <= |r.value| <= |s| / 4 * 3
    decreases |s|
  {
    if |s| == 0 then Some([])
    else if |s| < 4 then None
    else if |s| == 4 then DecodeQuad(s, true)
    else
      match DecodeQuad(s[..4], false)
      case None => None
      case Some(head) =>
        match Decode(s[4..])
        case None => None
        case Some(tail) => Some(head + tail)
  }

  /** Pad bits are not checked: "QR==" carries non-zero pad bits and still decodes, to what "QQ==" encodes. */
  lemma PadBitsIgnored()
    ensures Encode([65]) == "QQ=="
    ensures Decode("QR==") == Some([65])
  {
  }

  /** The bit arithmetic of one group: the four 6-bit values put the three bytes back together. */
  lemma GroupArithmetic(b0: byte, b1: byte, b2: byte)
    ensures var c1 := (b0 % 4) * 16 + b1 / 16;
      (b0 / 4) * 4 + c1 / 16 == b0 && c1 % 16 == b1 / 16
    ensures var c2 := (b1 % 16) * 4 + b2 / 64;
      ((b0 % 4) * 16 + b1 / 16) % 16 * 16 + c2 / 4 == b1 && c2 % 4 == b2 / 64
    ensures ((b1 % 16) * 4 + b2 / 64) % 4 * 64 + b2 % 64 == b2
  {
    var c1 := (b0 % 4) * 16 + b1 / 16;
    assert c1 / 16 == b0 % 4;
    var c2 := (b1 % 16) * 4 + b2 / 64;
    assert c2 / 4 == b1 % 16;
  }

  lemma QuadRoundTrip(b0: byte, b1: byte, b2: byte, last: bool)
    ensures DecodeQuad(Quad(b0, b1, b2), last) == Some([b0, b1, b2])
  {
    var c0, c1, c2, c3 := b0 / 4, (b0 % 4) * 16 + b1 / 16, (b1 % 16) * 4 + b2 / 64, b2 % 64;
    GroupArithmetic(b0, b1, b2);
    ValueOfChar(c0);
    ValueOfChar(c1);
    ValueOfChar(c2);
    ValueOfChar(c3);
    var q := Quad(b0, b1, b2);
    assert q == [Char(c0), Char(c1), Char(c2), Char(c3)];
    assert q[2] != '=' && q[3] != '=';
  }

  lemma PairRoundTrip(b0: byte, b1: byte)
    ensures DecodeQuad([Char(b0 / 4), Char((b0 % 4) * 16 + b1 / 16), Char((b1 % 16) * 4), '='], true) == Some([b0, b1])
  {
    var c1 := (b0 % 4) * 16 + b1 / 16;
    var c2 := (b1 % 16) * 4;
    GroupArithmetic(b0, b1, 0);
    ValueOfChar(b0 / 4);
    ValueOfChar(c1);
    ValueOfChar(c2);
    assert Char(c2) != '=';
  }

  lemma SingleRoundTrip(b0: byte)
    ensures DecodeQuad([Char(b0 / 4), Char((b0 % 4) * 16), '=', '='], true) == Some([b0])
  {
    GroupArithmetic(b0, 0, 0);
    ValueOfChar(b0 / 4);
    ValueOfChar((b0 % 4) * 16);
  }

  /** Decoding what `Encode` produced gives the bytes back. */
  lemma {:induction false} DecodeEncode(b: seq<byte>)
    ensures Decode(Encode(b)) == Some(b)
    decreases |b|
  {
    if |b| == 1 {
      SingleRoundTrip(b[0]);
      assert b == [b[0]];
    } else if |b| == 2 {
      PairRoundTrip(b[0], b[1]);
      assert b == [b[0], b[1]];
    } else if |b| == 3 {
      QuadRoundTrip(b[0], b[1], b[2], true);
      assert b[3..] == [];
      assert b == [b[0], b[1], b[2]];
    } else if |b| > 3 {
      DecodeEncode(b[3..]);
      DecodeEncodeLonger(b);
    }
  }

  /** One step of the round trip: a full first group followed by a non-empty rest. */
  lemma DecodeEncodeLonger(b: seq<byte>)
    requires |b| > 3
    requires Decode(Encode(b[3..])) == Some(b[3..])
    ensures Decode(Encode(b)) == Some(b)
  {
    QuadRoundTrip(b[0], b[1], b[2], false);
    DecodeGroups(Quad(b[0], b[1], b[2]), Encode(b[3..]), [b[0], b[1], b[2]], b[3..]);
    SplitFirstGroup(b);
  }

  lemma SplitFirstGroup(b: seq<byte>)
    requires |b| > 3
    ensures [b[0], b[1], b[2]] + b[3..] == b
  {
  }

  lemma DecodeGroups(q: string, rest: string, head: seq<byte>, tail: seq<byte>)
    requires |q| == 4 && |rest| >= 4
    requires DecodeQuad(q, false) == Some(head) && Decode(rest) == Some(tail)
    ensures Decode(q + rest) == Some(head + tail)
  {
    var s := q + rest;
    assert s[..4] == q;
    assert s[4..] == rest;
  }
}
