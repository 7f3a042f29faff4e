/**
  The base64 encoding of section 4 of RFC 4648, as Node's `Buffer.toString('base64')`
  produces it (padded with '='), and a strict decoder that accepts exactly the
  strings the encoder produces.
 */
module Base64 {
  import opened Wrappers

  type byte = b: int | 0 <= b < 256

  /** The digit of value i in the alphabet of RFC 4648, Table 1. */
  function CharOf(i: nat): (c: char)
    requires i < 64
    ensures c != '='
  {
    if i < 26 then ('A' as int + i) as char
    else if i < 52 then ('a' as int + i - 26) as char
    else if i < 62 then ('0' as int + i - 52) as char
    else if i == 62 then '+'
    else '/'
  }

  /** The value of an alphabet character; None for any other character, '=' included. */
  function IndexOf(c: char): (r: Option<nat>)
    ensures r.Some? ==> r.value < 64 && CharOf(r.value) == c
  {
    if 'A' <= c <= 'Z' then Some(c as int - 'A' as int)
    else if 'a' <= c <= 'z' then Some(c as int - 'a' as int + 26)
    else if '0' <= c <= '9' then Some(c as int - '0' as int + 52)
    else if c == '+' then Some(62)
    else if c == '/' then Some(63)
    else None
  }

  lemma IndexOfCharOf(i: nat)
    requires i < 64
    ensures IndexOf(CharOf(i)) == Some(i)
  {
  }

  /** A group of one to three bytes becomes four characters, padded with '='. */
  function EncodeGroup(g: seq<byte>): (q: string)
    requires 1 <= |g| <= 3
    ensures |q| == 4
  {
    if |g| == 1 then
      [CharOf(g[0] / 4), CharOf(g[0] % 4 * 16), '=', '=']
    else if |g| == 2 then
      [CharOf(g[0] / 4), CharOf(g[0] % 4 * 16 + g[1] / 16), CharOf(g[1] % 16 * 4), '=']
    else
      [CharOf(g[0] / 4), CharOf(g[0] % 4 * 16 + g[1] / 16), CharOf(g[1] % 16 * 4 + g[2] / 64), CharOf(g[2] % 64)]
  }

  /** `Buffer.toString('base64')`: three bytes at a time, the last group possibly shorter. */
  function Encode(b: seq<byte>): (s: string)
    ensures |s| == (|b| + 2) / 3 * 4
  {
    if |b| == 0 then ""
    else
      var k := if |b| < 3 then |b| else 3;
      EncodeGroup(b[..k]) + Encode(b[k..])
  }

  /**
    One group of four characters. Padding is accepted only in the last group, and
    the bits that padding leaves unused must be zero, so that every accepted
    string is the encoding of the bytes it decodes to.
   */
  function DecodeGroup(q: string, last: bool): (r: Option<seq<byte>>)
    requires |q| == 4
    ensures r.Some? ==> 1 <= |r.value| <= 3 && (|r.value| < 3 ==> last)
  {
    match (IndexOf(q[0]), IndexOf(q[1]), IndexOf(q[2]), IndexOf(q[3]))
    case (Some(i0), Some(i1), Some(i2), Some(i3)) =>
      Some([i0 * 4 + i1 / 16, i1 % 16 * 16 + i2 / 4, i2 % 4 * 64 + i3])
    case (Some(i0), Some(i1), Some(i2), None) =>
      if last && q[3] == '=' && i2 % 4 == 0 then Some([i0 * 4 + i1 / 16, i1 % 16 * 16 + i2 / 4]) else None
    case (Some(i0), Some(i1), None, None) =>
      if last && q[2] == '=' && q[3] == '=' && i1 % 16 == 0 then Some([i0 * 4 + i1 / 16]) else None
    case _ => None
  }

  /** `Buffer.from(s, 'base64')` on text that is a strict encoding; `None` for any other text. */
  function Decode(s: string): (r: Option<seq<byte>>)
    ensures r.Some? ==> |s| % 4 == 0 && |s| / 4 * 3 - 2 <= |r.value| <= |s| / 4 * 3
  {
    if |s| == 0 then Some([])
    else if |s| < 4 then None
    else match DecodeGroup(s[..4], |s| == 4)
      case None => None
      case Some(g) =>
        match Decode(s[4..])
        case None => None
        case Some(rest) => Some(g + rest)
  }

  /** Decoding undoes encoding. */
  lemma {:induction false} DecodeEncode(b: seq<byte>)
    ensures Decode(Encode(b)) == Some(b)
  {
    if |b| > 0 {
      var k := if |b| < 3 then |b| else 3;
      var g, rest := b[..k], b[k..];
      var s := Encode(b);
      assert s == EncodeGroup(g) + Encode(rest);
      GroupDecodes(g, |s| == 4);
      DecodeEncode(rest);
      DecodeStep(EncodeGroup(g), Encode(rest), |s| == 4);
      assert b == g + rest;
    }
  }

  /** Decoding a string of whole groups goes one group at a time. */
  lemma DecodeStep(q: string, t: string, last: bool)
    requires |q| == 4 && last == (|t| == 0)
    ensures Decode(q + t) == match DecodeGroup(q, last)
      case None => None
      case Some(g) => match Decode(t)
        case None => None
        case Some(rest) => Some(g + rest)
  {
    assert (q + t)[..4] == q && (q + t)[4..] == t;
  }

  lemma GroupDecodes(g: seq<byte>, last: bool)
    requires 1 <= |g| <= 3 && (|g| < 3 ==> last)
    ensures DecodeGroup(EncodeGroup(g), last) == Some(g)
  {
    if |g| == 1 {
      DecodeOneByte(g[0]);
      assert g == [g[0]];
    } else if |g| == 2 {
      DecodeTwoBytes(g[0], g[1]);
      assert g == [g[0], g[1]];
    } else {
      DecodeThreeBytes(g[0], g[1], g[2], last);
      assert g == [g[0], g[1], g[2]];
    }
  }

  lemma DecodeOneByte(b0: byte)
    ensures DecodeGroup(EncodeGroup([b0]), true) == Some([b0])
  {
    var i0, i1 := b0 / 4, b0 % 4 * 16;
    IndexOfCharOf(i0);
    IndexOfCharOf(i1);
    assert EncodeGroup([b0]) == [CharOf(i0), CharOf(i1), '=', '='];
  }

  lemma DecodeTwoBytes(b0: byte, b1: byte)
    ensures DecodeGroup(EncodeGroup([b0, b1]), true) == Some([b0, b1])
  {
    var i0, i1, i2 := b0 / 4, b0 % 4 * 16 + b1 / 16, b1 % 16 * 4;
    IndexOfCharOf(i0);
    IndexOfCharOf(i1);
    IndexOfCharOf(i2);
    assert EncodeGroup([b0, b1]) == [CharOf(i0), CharOf(i1), CharOf(i2), '='];
    assert i0 * 4 + i1 / 16 == b0;
    assert i1 % 16 * 16 + i2 / 4 == b1;
  }

  lemma DecodeThreeBytes(b0: byte, b1: byte, b2: byte, last: bool)
    ensures DecodeGroup(EncodeGroup([b0, b1, b2]), last) == Some([b0, b1, b2])
  {
    var i0, i1, i2, i3 := b0 / 4, b0 % 4 * 16 + b1 / 16, b1 % 16 * 4 + b2 / 64, b2 % 64;
    IndexOfCharOf(i0);
    IndexOfCharOf(i1);
    IndexOfCharOf(i2);
    IndexOfCharOf(i3);
    assert EncodeGroup([b0, b1, b2]) == [CharOf(i0), CharOf(i1), CharOf(i2), CharOf(i3)];
    assert i0 * 4 + i1 / 16 == b0;
    assert i1 % 16 * 16 + i2 / 4 == b1;
    assert i2 % 4 * 64 + i3 == b2;
  }

  /** Every string the decoder accepts is the encoding of what it decodes to. */
  lemma {:induction false} EncodeDecode(s: string)
    requires Decode(s).Some?
    ensures Encode(Decode(s).value) == s
  {
    if |s| > 0 {
      var q := s[..4];
      var g := DecodeGroup(q, |s| == 4).value;
      var rest := Decode(s[4..]).value;
      EncodeDecode(s[4..]);
      GroupRoundTrip(q, |s| == 4);
      var b := g + rest;
      if |g| < 3 {
        assert s[4..] == [] && rest == [] && b == g;
      }
      var k := if |b| < 3 then |b| else 3;
      assert b[..k] == g && b[k..] == rest;
      assert s == q + s[4..];
    }
  }

  lemma GroupRoundTrip(q: string, last: bool)
    requires |q| == 4 && DecodeGroup(q, last).Some?
    ensures EncodeGroup(DecodeGroup(q, last).value) == q
  {
    var g := DecodeGroup(q, last).value;
    var i0, i1 := IndexOf(q[0]).value, IndexOf(q[1]).value;
    assert g[0] / 4 == i0;
    if |g| == 1 {
      assert g[0] % 4 * 16 == i1;
    } else {
      var i2 := IndexOf(q[2]).value;
      assert g[0] % 4 * 16 + g[1] / 16 == i1;
      if |g| == 2 {
        assert g[1] % 16 * 4 == i2;
      } else {
        var i3 := IndexOf(q[3]).value;
        assert g[1] % 16 * 4 + g[2] / 64 == i2;
        assert g[2] % 64 == i3;
      }
    }
  }

  /** RFC 4648, section 10: the test vectors for BASE64. */
  lemma TestVectors()
    ensures Encode([0x66]) == "Zg=="
    ensures Encode([0x66, 0x6f]) == "Zm8="
    ensures Encode([0x66, 0x6f, 0x6f]) == "Zm9v"
  {
  }
}
