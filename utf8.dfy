/** UTF-8, as `Buffer.from(text)` encodes a JavaScript string (RFC 3629,
    section 3), and the strict decoder that inverts it. */
module Utf8 {
  import opened Common

  type Byte = b: int | 0 <= b < 256

  /** A continuation byte `10xxxxxx` carrying six bits. */
  function Cont(bits: int): Byte
    requires 0 <= bits < 64
  {
    0x80 + bits
  }

  /** The bytes of one Unicode scalar value: one to four, by its size. */
  function EncodeChar(c: char): (r: seq<Byte>)
    ensures 1 <= |r| <= 4 && |r| == SequenceLength(r[0])
  {
    var cp := c as int;
    if cp < 0x80 then [cp]
    else if cp < 0x800 then [0xC0 + cp / 64, Cont(cp % 64)]
    else if cp < 0x10000 then [0xE0 + cp / 4096, Cont((cp / 64) % 64), Cont(cp % 64)]
    else [0xF0 + cp / 262144, Cont((cp / 4096) % 64), Cont((cp / 64) % 64), Cont(cp % 64)]
  }

  function Encode(s: string): (r: seq<Byte>)
    ensures |r| >= |s|
  {
    if s == [] then [] else EncodeChar(s[0]) + Encode(s[1..])
  }

  /** How many bytes the sequence led by `lead` has; 0 for a byte that cannot
      lead one. */
  function SequenceLength(lead: Byte): nat {
    if lead < 0x80 then 1
    else if 0xC2 <= lead < 0xE0 then 2
    else if 0xE0 <= lead < 0xF0 then 3
    else if 0xF0 <= lead < 0xF5 then 4
    else 0
  }

  predicate IsCont(b: Byte) {
    0x80 <= b < 0xC0
  }

  predicate IsScalar(cp: int) {
    0 <= cp < 0xD800 || 0xE000 <= cp < 0x110000
  }

  /** The scalar value a well-formed sequence of one to four bytes stands for:
      continuation bytes where they belong, no overlong form, no surrogate. */
  function DecodeChar(g: seq<Byte>): (r: Option<char>)
    requires 1 <= |g| <= 4 && |g| == SequenceLength(g[0])
  {
    if |g| == 1 then Some(g[0] as char)
    else if exists i | 1 <= i < |g| :: !IsCont(g[i]) then None
    else
      var cp: int := Payload(g);
      var least: int := if |g| == 2 then 0x80 else if |g| == 3 then 0x800 else 0x10000;
      if least <= cp && IsScalar(cp) then Some(cp as char) else None
  }

  /** The bits a multi-byte sequence carries. */
  function Payload(g: seq<Byte>): int
    requires 2 <= |g| <= 4
  {
    var b0: int, b1: int := g[0], g[1];
    if |g| == 2 then (b0 - 0xC0) * 64 + (b1 - 0x80)
    else if |g| == 3 then (b0 - 0xE0) * 4096 + (b1 - 0x80) * 64 + (g[2] as int - 0x80)
    else (b0 - 0xF0) * 262144 + (b1 - 0x80) * 4096 + (g[2] as int - 0x80) * 64 + (g[3] as int - 0x80)
  }

  /** Strict UTF-8 decoding: None on any ill-formed input. */
  function Decode(b: seq<Byte>): Option<string>
    decreases |b|
  {
    if b == [] then Some([])
    else
      var n := SequenceLength(b[0]);
      if n == 0 || |b| < n then None
      else match DecodeChar(b[..n])
        case None => None
        case Some(c) =>
          match Decode(b[n..])
          case None => None
          case Some(rest) => Some([c] + rest)
  }

  lemma PayloadTwo(cp: int)
    requires 0x80 <= cp < 0x800
    ensures Payload([0xC0 + cp / 64, Cont(cp % 64)]) == cp
  {
  }

  lemma PayloadThree(cp: int)
    requires 0x800 <= cp < 0x10000
    ensures Payload([0xE0 + cp / 4096, Cont((cp / 64) % 64), Cont(cp % 64)]) == cp
  {
    assert (cp / 4096) * 4096 + ((cp / 64) % 64) * 64 == (cp / 64) * 64;
  }

  lemma PayloadFour(cp: int)
    requires 0x10000 <= cp < 0x110000
    ensures Payload([0xF0 + cp / 262144, Cont((cp / 4096) % 64), Cont((cp / 64) % 64), Cont(cp % 64)]) == cp
  {
    assert (cp / 262144) * 64 + (cp / 4096) % 64 == cp / 4096;
    assert (cp / 4096) * 64 + (cp / 64) % 64 == cp / 64;
  }

  lemma DecodeEncodeChar(c: char)
    ensures DecodeChar(EncodeChar(c)) == Some(c)
  {
    var cp := c as int;
    var g := EncodeChar(c);
    if 0x80 <= cp < 0x800 {
      PayloadTwo(cp);
    } else if 0x800 <= cp < 0x10000 {
      PayloadThree(cp);
    } else if 0x10000 <= cp {
      PayloadFour(cp);
    }
    if cp >= 0x80 {
      assert forall i | 1 <= i < |g| :: IsCont(g[i]);
      assert Payload(g) == cp;
    }
  }

  /** Decoding inverts encoding: a string is recovered from its bytes. */
  lemma {:induction false} DecodeEncode(s: string)
    ensures Decode(Encode(s)) == Some(s)
  {
    if s != [] {
      var g := EncodeChar(s[0]);
      var b := Encode(s);
      assert b == g + Encode(s[1..]);
      assert b[0] == g[0];
      assert b[..|g|] == g && b[|g|..] == Encode(s[1..]);
      DecodeEncodeChar(s[0]);
      DecodeEncode(s[1..]);
      assert s == [s[0]] + s[1..];
    }
  }

  /** Distinct strings have distinct encodings. */
  lemma EncodeInjective(s: string, t: string)
    requires Encode(s) == Encode(t)
    ensures s == t
  {
    DecodeEncode(s);
    DecodeEncode(t);
  }
}
