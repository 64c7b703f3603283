/** Base64 with the standard alphabet and `=` padding (section 4 of RFC 4648),
    as `Buffer.toString("base64")` writes it, and the decoder that inverts it. */
module Base64 {
  import opened Common
  import opened Utf8

  /** The value of a six-bit group. */
  type Sextet = v: int | 0 <= v < 64

  /** The character for a six-bit value: `A`-`Z`, `a`-`z`, `0`-`9`, `+`, `/`
      (Table 1 of RFC 4648). */
  function CharOf(v: Sextet): (c: char)
    ensures c != '='
  {
    if v < 26 then (('A' as int) + v) as char
    else if v < 52 then (('a' as int) + v - 26) as char
    else if v < 62 then (('0' as int) + v - 52) as char
    else if v == 62 then '+'
    else '/'
  }

  /** The value of an alphabet character; None for any other character. */
  function ValueOf(c: char): (r: Option<Sextet>)
    ensures r.Some? ==> CharOf(r.value) == c
  {
    if 'A' <= c <= 'Z' then Some((c as int) - ('A' as int))
    else if 'a' <= c <= 'z' then Some((c as int) - ('a' as int) + 26)
    else if '0' <= c <= '9' then Some((c as int) - ('0' as int) + 52)
    else if c == '+' then Some(62)
    else if c == '/' then Some(63)
    else None
  }

  lemma ValueOfCharOf(v: Sextet)
    ensures ValueOf(CharOf(v)) == Some(v)
  {
  }

  /** Three bytes as four characters. */
  function EncodeGroup(b0: Byte, b1: Byte, b2: Byte): string {
    [CharOf(b0 / 4), CharOf((b0 % 4) * 16 + b1 / 16), CharOf((b1 % 16) * 4 + b2 / 64), CharOf(b2 % 64)]
  }

  /** The encoded text: four characters per three bytes, the last group
      padded with `=` when one or two bytes remain. */
  function Encode(b: seq<Byte>): (r: string)
    ensures |r| == 4 * ((|b| + 2) / 3)
  {
    if |b| == 0 then ""
    else if |b| == 1 then [CharOf(b[0] / 4), CharOf((b[0] % 4) * 16), '=', '=']
    else if |b| == 2 then [CharOf(b[0] / 4), CharOf((b[0] % 4) * 16 + b[1] / 16), CharOf((b[1] % 16) * 4), '=']
    else EncodeGroup(b[0], b[1], b[2]) + Encode(b[3..])
  }

  /** Four characters as three bytes. */
  function DecodeGroup(v0: Sextet, v1: Sextet, v2: Sextet, v3: Sextet): seq<Byte> {
    [v0 * 4 + v1 / 16, (v1 % 16) * 16 + v2 / 4, (v2 % 4) * 64 + v3]
  }

  /** Strict decoding: the length is a multiple of four, only the last group
      may carry padding, and the bits the padding leaves over are zero. */
  function Decode(s: string): Option<seq<Byte>>
    decreases |s|
  {
    if s == [] then Some([])
    else if |s| < 4 then None
    else
      var r0, r1, r2 := ValueOf(s[0]), ValueOf(s[1]), ValueOf(s[2]);
      if r0.None? || r1.None? then None
      else if |s| == 4 && s[2] == '=' && s[3] == '=' then
        if r1.value % 16 == 0 then Some([r0.value * 4 + r1.value / 16]) else None
      else if r2.None? then None
      else if |s| == 4 && s[3] == '=' then
        if r2.value % 4 == 0 then Some([r0.value * 4 + r1.value / 16, (r1.value % 16) * 16 + r2.value / 4])
        else None
      else
        var r3 := ValueOf(s[3]);
        if r3.None? then None
        else match Decode(s[4..])
          case None => None
          case Some(rest) => Some(DecodeGroup(r0.value, r1.value, r2.value, r3.value) + rest)
  }

  lemma GroupRoundTrip(b0: Byte, b1: Byte, b2: Byte)
    ensures DecodeGroup(b0 / 4, (b0 % 4) * 16 + b1 / 16, (b1 % 16) * 4 + b2 / 64, b2 % 64) == [b0, b1, b2]
  {
  }

  lemma DecodeOneByte(b0: Byte)
    ensures Decode([CharOf(b0 / 4), CharOf((b0 % 4) * 16), '=', '=']) == Some([b0])
  {
    ValueOfCharOf(b0 / 4);
    ValueOfCharOf((b0 % 4) * 16);
  }

  lemma DecodeTwoBytes(b0: Byte, b1: Byte)
    ensures Decode([CharOf(b0 / 4), CharOf((b0 % 4) * 16 + b1 / 16), CharOf((b1 % 16) * 4), '=']) == Some([b0, b1])
  {
    var v1 := (b0 % 4) * 16 + b1 / 16;
    ValueOfCharOf(b0 / 4);
    ValueOfCharOf(v1);
    ValueOfCharOf((b1 % 16) * 4);
    assert v1 % 16 == b1 / 16 && v1 / 16 == b0 % 4;
    assert (v1 % 16) * 16 + ((b1 % 16) * 4) / 4 == b1;
  }

  /** A full group followed by any text decodes as its three bytes followed by
      the decoding of that text. */
  lemma DecodeFullGroup(b0: Byte, b1: Byte, b2: Byte, rest: string)
    requires rest != []
    ensures Decode(EncodeGroup(b0, b1, b2) + rest) ==
      match Decode(rest) case None => None case Some(t) => Some([b0, b1, b2] + t)
  {
    var s := EncodeGroup(b0, b1, b2) + rest;
    ValueOfCharOf(b0 / 4);
    ValueOfCharOf((b0 % 4) * 16 + b1 / 16);
    ValueOfCharOf((b1 % 16) * 4 + b2 / 64);
    ValueOfCharOf(b2 % 64);
    assert s[4..] == rest;
    GroupRoundTrip(b0, b1, b2);
  }

  /** A last full group decodes as its three bytes. */
  lemma DecodeLastGroup(b0: Byte, b1: Byte, b2: Byte)
    ensures Decode(EncodeGroup(b0, b1, b2)) == Some([b0, b1, b2])
  {
    var s := EncodeGroup(b0, b1, b2);
    ValueOfCharOf(b0 / 4);
    ValueOfCharOf((b0 % 4) * 16 + b1 / 16);
    ValueOfCharOf((b1 % 16) * 4 + b2 / 64);
    ValueOfCharOf(b2 % 64);
    assert s[2] != '=' && s[3] != '=';
    assert s[4..] == [] && Decode(s[4..]) == Some([]);
    GroupRoundTrip(b0, b1, b2);
    var g := DecodeGroup(b0 / 4, (b0 % 4) * 16 + b1 / 16, (b1 % 16) * 4 + b2 / 64, b2 % 64);
    assert g + [] == g;
  }

  /** Decoding inverts encoding. */
  lemma {:induction false} DecodeEncode(b: seq<Byte>)
    ensures Decode(Encode(b)) == Some(b)
    decreases |b|
  {
    if |b| == 1 {
      DecodeOneByte(b[0]);
      assert b == [b[0]];
    } else if |b| == 2 {
      DecodeTwoBytes(b[0], b[1]);
      assert b == [b[0], b[1]];
    } else if |b| >= 3 {
      assert b == [b[0], b[1], b[2]] + b[3..];
      if |b| == 3 {
        assert Encode(b) == EncodeGroup(b[0], b[1], b[2]) + Encode([]);
        DecodeLastGroup(b[0], b[1], b[2]);
      } else {
        DecodeEncode(b[3..]);
        DecodeFullGroup(b[0], b[1], b[2], Encode(b[3..]));
      }
    }
  }

  /** Distinct byte strings have distinct encodings. */
  lemma EncodeInjective(a: seq<Byte>, b: seq<Byte>)
    requires Encode(a) == Encode(b)
    ensures a == b
  {
    DecodeEncode(a);
    DecodeEncode(b);
  }

  /** Every character of an encoding is an alphabet character or padding. */
  lemma {:induction false} EncodeAlphabet(b: seq<Byte>)
    ensures forall i | 0 <= i < |Encode(b)| :: Encode(b)[i] == '=' || ValueOf(Encode(b)[i]).Some?
    decreases |b|
  {
    if |b| >= 3 {
      EncodeAlphabet(b[3..]);
      var g := EncodeGroup(b[0], b[1], b[2]);
      ValueOfCharOf(b[0] / 4);
      ValueOfCharOf((b[0] % 4) * 16 + b[1] / 16);
      ValueOfCharOf((b[1] % 16) * 4 + b[2] / 64);
      ValueOfCharOf(b[2] % 64);
      assert Encode(b) == g + Encode(b[3..]);
      forall i | 0 <= i < |Encode(b)| ensures Encode(b)[i] == '=' || ValueOf(Encode(b)[i]).Some? {
        if i >= 4 { assert Encode(b)[i] == Encode(b[3..])[i - 4]; }
      }
    } else if |b| == 2 {
      ValueOfCharOf(b[0] / 4);
      ValueOfCharOf((b[0] % 4) * 16 + b[1] / 16);
      ValueOfCharOf((b[1] % 16) * 4);
    } else if |b| == 1 {
      ValueOfCharOf(b[0] / 4);
      ValueOfCharOf((b[0] % 4) * 16);
    }
  }

  /** The test vectors of section 10 of RFC 4648 for "f", "fo" and "foo". */
  lemma TestVectors()
    ensures Encode([102]) == "Zg=="
    ensures Encode([102, 111]) == "Zm8="
    ensures Encode([102, 111, 111]) == "Zm9v"
  {
    assert Encode([102, 111, 111]) == EncodeGroup(102, 111, 111) + Encode([]);
  }
}
