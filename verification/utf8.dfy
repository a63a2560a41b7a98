/**
 UTF-8 as defined in section 3 of RFC 3629: every Unicode scalar value is
 written as one to four bytes, and a strict decoder accepts exactly the byte
 strings the encoder can produce (no overlong forms, no surrogates, nothing
 above U+10FFFF).
 */
module Utf8 {
  import opened Wrappers

  /** An octet. */
  type byte = x: int | 0 <= x < 256

  /** A continuation byte, 10xxxxxx. */
  predicate IsContinuation(b: byte) {
    0x80 <= b < 0xC0
  }

  /** Number of bytes RFC 3629 uses for a code point (the table in its section 3). */
  function Width(c: char): (n: nat)
    ensures 1 <= n <= 4
  {
    var cp := c as int;
    if cp < 0x80 then 1
    else if cp < 0x800 then 2
    else if cp < 0x10000 then 3
    else 4
  }

  /** The UTF-8 form of a single scalar value. */
  function EncodeChar(c: char): (r: seq<byte>)
    ensures |r| == Width(c)
    ensures |r| == 1 <==> r[0] < 0x80
    ensures |r| == 2 <==> 0xC2 <= r[0] <= 0xDF
    ensures |r| == 3 <==> 0xE0 <= r[0] <= 0xEF
    ensures |r| == 4 <==> 0xF0 <= r[0] <= 0xF4
    ensures forall i :: 1 <= i < |r| ==> IsContinuation(r[i])
  {
    var cp := c as int;
    if cp < 0x80 then
      [cp]
    else if cp < 0x800 then
      [0xC0 + cp / 64, 0x80 + cp % 64]
    else if cp < 0x10000 then
      [0xE0 + cp / 4096, 0x80 + (cp / 64) % 64, 0x80 + cp % 64]
    else
      [0xF0 + cp / 262144, 0x80 + (cp / 4096) % 64, 0x80 + (cp / 64) % 64, 0x80 + cp % 64]
  }

  /** The UTF-8 form of a string: the concatenation of its characters' forms. */
  function Encode(s: string): (r: seq<byte>)
    ensures |s| <= |r| <= 4 * |s|
  {
    if s == [] then [] else EncodeChar(s[0]) + Encode(s[1..])
  }

  /** True when `cp` is a Unicode scalar value, i.e. a value Dafny's `char` can hold. */
  predicate IsScalarValue(cp: int) {
    (0 <= cp < 0xD800) || (0xE000 <= cp <= 0x10FFFF)
  }

  /**
   Decodes the first character of `b`, returning it with the number of bytes
   it occupied, or `None` when `b` does not start with a well-formed sequence.
   */
  function DecodeFirst(b: seq<byte>): (r: Option<(char, nat)>)
    ensures r.Some? ==> 1 <= r.value.1 <= |b| && r.value.1 <= 4
  {
    if |b| == 0 then None
    else if b[0] < 0x80 then
      Some((b[0] as char, 1))
    else if 0xC2 <= b[0] <= 0xDF then
      if |b| < 2 || !IsContinuation(b[1]) then None
      else Some((((b[0] as int - 0xC0) * 64 + (b[1] as int - 0x80)) as char, 2))
    else if 0xE0 <= b[0] <= 0xEF then
      if |b| < 3 || !IsContinuation(b[1]) || !IsContinuation(b[2]) then None
      else
        var cp := (b[0] as int - 0xE0) * 4096 + (b[1] as int - 0x80) * 64 + (b[2] as int - 0x80);
        if cp < 0x800 || !IsScalarValue(cp) then None else Some((cp as char, 3))
    else if 0xF0 <= b[0] <= 0xF4 then
      if |b| < 4 || !IsContinuation(b[1]) || !IsContinuation(b[2]) || !IsContinuation(b[3]) then None
      else
        var cp := (b[0] as int - 0xF0) * 262144 + (b[1] as int - 0x80) * 4096 + (b[2] as int - 0x80) * 64 + (b[3] as int - 0x80);
        if cp < 0x10000 || 0x10FFFF < cp then None else Some((cp as char, 4))
    else
      None
  }

  /** Strict decoder: the string whose UTF-8 form is `b`, or `None` if `b` is malformed. */
  function Decode(b: seq<byte>): (r: Option<string>)
    decreases |b|
  {
    if b == [] then Some([])
    else
      match DecodeFirst(b)
      case None => None
      case Some((c, n)) =>
        match Decode(b[n..])
        case None => None
        case Some(rest) => Some([c] + rest)
  }

  /** The form of a concatenation is the concatenation of the forms. */
  lemma {:induction false} EncodeAppend(s: string, t: string)
    ensures Encode(s + t) == Encode(s) + Encode(t)
  {
    if s == [] {
      assert s + t == t;
    } else {
      var u := s + t;
      assert u[0] == s[0] && u[1..] == s[1..] + t;
      var head := EncodeChar(s[0]);
      EncodeAppend(s[1..], t);
      calc {
        Encode(u);
        head + Encode(s[1..] + t);
        head + (Encode(s[1..]) + Encode(t));
        (head + Encode(s[1..])) + Encode(t);
      }
    }
  }

  // Arithmetic of the three multi-byte forms: splitting a code point into
  // 6-bit groups and joining the groups back are inverse.

  lemma Split2(cp: int)
    requires 0x80 <= cp < 0x800
    ensures 0xC2 <= 0xC0 + cp / 64 <= 0xDF
    ensures (cp / 64) * 64 + cp % 64 == cp
  {
  }

  lemma Split3(cp: int)
    requires 0x800 <= cp < 0x10000
    ensures 0xE0 <= 0xE0 + cp / 4096 <= 0xEF
    ensures (cp / 4096) * 4096 + ((cp / 64) % 64) * 64 + cp % 64 == cp
  {
  }

  lemma Split4(cp: int)
    requires 0x10000 <= cp <= 0x10FFFF
    ensures 0xF0 <= 0xF0 + cp / 262144 <= 0xF4
    ensures (cp / 262144) * 262144 + ((cp / 4096) % 64) * 4096 + ((cp / 64) % 64) * 64 + cp % 64 == cp
  {
    assert cp / 4096 == (cp / 262144) * 64 + (cp / 4096) % 64;
    assert cp / 64 == (cp / 4096) * 64 + (cp / 64) % 64;
  }

  lemma Join2(g1: int, g2: int)
    requires 0 <= g1 < 32 && 0 <= g2 < 64
    ensures (g1 * 64 + g2) / 64 == g1 && (g1 * 64 + g2) % 64 == g2
  {
  }

  lemma Join3(g1: int, g2: int, g3: int)
    requires 0 <= g1 < 16 && 0 <= g2 < 64 && 0 <= g3 < 64
    ensures var cp := g1 * 4096 + g2 * 64 + g3;
      cp / 4096 == g1 && (cp / 64) % 64 == g2 && cp % 64 == g3
  {
    var cp := g1 * 4096 + g2 * 64 + g3;
    assert cp / 64 == g1 * 64 + g2;
  }

  lemma Join4(g1: int, g2: int, g3: int, g4: int)
    requires 0 <= g1 < 8 && 0 <= g2 < 64 && 0 <= g3 < 64 && 0 <= g4 < 64
    ensures var cp := g1 * 262144 + g2 * 4096 + g3 * 64 + g4;
      cp / 262144 == g1 && (cp / 4096) % 64 == g2 && (cp / 64) % 64 == g3 && cp % 64 == g4
  {
    var cp := g1 * 262144 + g2 * 4096 + g3 * 64 + g4;
    assert cp / 64 == g1 * 4096 + g2 * 64 + g3;
    assert cp / 4096 == g1 * 64 + g2;
  }

  /** Decoding the form of one character, followed by anything, reads back exactly that character. */
  lemma DecodeFirstEncodeChar(c: char, rest: seq<byte>)
    ensures DecodeFirst(EncodeChar(c) + rest) == Some((c, Width(c)))
  {
    var cp := c as int;
    if cp < 0x80 {
    } else if cp < 0x800 {
      Split2(cp);
    } else if cp < 0x10000 {
      Split3(cp);
    } else {
      Split4(cp);
    }
  }

  /** A code point assembled from a two-byte sequence encodes back to those bytes. */
  lemma EncodeCharOf2(c: char, b0: byte, b1: byte)
    requires 0xC2 <= b0 <= 0xDF && IsContinuation(b1)
    requires c as int == (b0 - 0xC0) * 64 + (b1 - 0x80)
    ensures EncodeChar(c) == [b0, b1]
  {
    Join2(b0 - 0xC0, b1 - 0x80);
  }

  /** A code point assembled from a three-byte sequence encodes back to those bytes. */
  lemma EncodeCharOf3(c: char, b0: byte, b1: byte, b2: byte)
    requires 0xE0 <= b0 <= 0xEF && IsContinuation(b1) && IsContinuation(b2)
    requires 0x800 <= c as int == (b0 - 0xE0) * 4096 + (b1 - 0x80) * 64 + (b2 - 0x80)
    ensures EncodeChar(c) == [b0, b1, b2]
  {
    Join3(b0 - 0xE0, b1 - 0x80, b2 - 0x80);
  }

  /** A code point assembled from a four-byte sequence encodes back to those bytes. */
  lemma EncodeCharOf4(c: char, b0: byte, b1: byte, b2: byte, b3: byte)
    requires 0xF0 <= b0 <= 0xF4 && IsContinuation(b1) && IsContinuation(b2) && IsContinuation(b3)
    requires 0x10000 <= c as int == (b0 - 0xF0) * 262144 + (b1 - 0x80) * 4096 + (b2 - 0x80) * 64 + (b3 - 0x80)
    ensures EncodeChar(c) == [b0, b1, b2, b3]
  {
    Join4(b0 - 0xF0, b1 - 0x80, b2 - 0x80, b3 - 0x80);
  }

  /** Whatever `DecodeFirst` accepts is exactly the encoder's form of the character it returns. */
  lemma EncodeCharDecodeFirst(b: seq<byte>)
    requires DecodeFirst(b).Some?
    ensures EncodeChar(DecodeFirst(b).value.0) == b[..DecodeFirst(b).value.1]
  {
    var c := DecodeFirst(b).value.0;
    if b[0] < 0x80 {
    } else if 0xC2 <= b[0] <= 0xDF {
      EncodeCharOf2(c, b[0], b[1]);
      assert b[..2] == [b[0], b[1]];
    } else if 0xE0 <= b[0] <= 0xEF {
      EncodeCharOf3(c, b[0], b[1], b[2]);
      assert b[..3] == [b[0], b[1], b[2]];
    } else {
      EncodeCharOf4(c, b[0], b[1], b[2], b[3]);
      assert b[..4] == [b[0], b[1], b[2], b[3]];
    }
  }

  /** Round trip: decoding the UTF-8 form of any string gives the string back. */
  lemma {:induction false} DecodeEncode(s: string)
    ensures Decode(Encode(s)) == Some(s)
  {
    if s != [] {
      var rest := Encode(s[1..]);
      DecodeFirstEncodeChar(s[0], rest);
      assert Encode(s) == EncodeChar(s[0]) + rest;
      assert Encode(s)[Width(s[0])..] == rest;
      DecodeEncode(s[1..]);
      assert [s[0]] + s[1..] == s;
    }
  }

  /**
   A successful decoding of a non-empty input splits it: the form of its first
   character, followed by bytes that decode to the rest of the string.
   */
  lemma DecodeSplit(b: seq<byte>) returns (c: char, n: nat, tail: string)
    requires b != [] && Decode(b).Some?
    ensures 1 <= n <= |b| && EncodeChar(c) == b[..n]
    ensures Decode(b[n..]) == Some(tail) && Decode(b).value == [c] + tail
  {
    c, n := DecodeFirst(b).value.0, DecodeFirst(b).value.1;
    tail := Decode(b[n..]).value;
    EncodeCharDecodeFirst(b);
  }

  /** The form of a string starting with `c` is the form of `c` followed by the form of the rest. */
  lemma EncodeCons(c: char, tail: string)
    ensures Encode([c] + tail) == EncodeChar(c) + Encode(tail)
  {
    assert ([c] + tail)[1..] == tail;
  }

  /** Bytes made of the form of `c` followed by the form of `tail` are the form of `[c] + tail`. */
  lemma EncodeJoin(b: seq<byte>, c: char, n: nat, tail: string)
    requires 1 <= n <= |b| && EncodeChar(c) == b[..n] && Encode(tail) == b[n..]
    ensures Encode([c] + tail) == b
  {
    EncodeCons(c, tail);
    assert b == b[..n] + b[n..];
  }

  /** The decoder is strict: whatever it accepts is the encoder's output for the string it returns. */
  lemma {:induction false} EncodeDecode(b: seq<byte>)
    requires Decode(b).Some?
    ensures Encode(Decode(b).value) == b
    decreases |b|
  {
    if b != [] {
      var c, n, tail := DecodeSplit(b);
      EncodeDecode(b[n..]);
      EncodeJoin(b, c, n, tail);
    }
  }

  /** The decoder and the encoder are inverse: `Decode(b) == Some(s)` exactly when `Encode(s) == b`. */
  lemma DecodeIffEncode(b: seq<byte>, s: string)
    ensures Decode(b) == Some(s) <==> Encode(s) == b
  {
    if Decode(b) == Some(s) {
      EncodeDecode(b);
    }
    if Encode(s) == b {
      DecodeEncode(s);
    }
  }
}
