/**
 The `quote_plus` query encoding used to build search links. A string is
 UTF-8 encoded (section 3 of RFC 3629); each resulting byte is written as
 itself when it is an unreserved character of section 2.3 of RFC 3986
 (ALPHA, DIGIT, `-`, `.`, `_`, `~`), as `+` when it is a space (the HTML
 form-urlencoded convention), and otherwise as a percent-encoded triplet
 `%HH` with upper-case hexadecimal digits (section 2.1 of RFC 3986).

 `Unquote` is the matching strict decoder. The canonical strings are exactly
 the encoder's outputs, so encoding is a bijection between byte strings and
 canonical strings.
 */
module FormEncoding {
  import opened Wrappers
  import Utf8

  type byte = Utf8.byte

  /** ALPHA / DIGIT / "-" / "." / "_" / "~" (section 2.3 of RFC 3986), as a byte. */
  predicate IsUnreservedByte(b: byte) {
    || 0x41 <= b <= 0x5A   // A-Z
    || 0x61 <= b <= 0x7A   // a-z
    || 0x30 <= b <= 0x39   // 0-9
    || b == 0x2D || b == 0x2E || b == 0x5F || b == 0x7E
  }

  /** The same set of characters, as characters. */
  predicate IsUnreservedChar(c: char) {
    c as int < 256 && IsUnreservedByte(c as int)
  }

  predicate IsUpperHex(c: char) {
    ('0' <= c <= '9') || ('A' <= c <= 'F')
  }

  /** The upper-case hexadecimal digit for a value below 16. */
  function UpperHexDigit(n: nat): (c: char)
    requires n < 16
    ensures IsUpperHex(c)
  {
    if n < 10 then ('0' as int + n) as char else ('A' as int + n - 10) as char
  }

  /** The value of a hexadecimal digit of either case (section 2.1 of RFC 3986 makes them equivalent). */
  function HexValue(c: char): (r: Option<nat>)
    ensures r.Some? ==> r.value < 16
    ensures IsUpperHex(c) ==> r.Some? && UpperHexDigit(r.value) == c
  {
    if '0' <= c <= '9' then Some(c as int - '0' as int)
    else if 'A' <= c <= 'F' then Some(c as int - 'A' as int + 10)
    else if 'a' <= c <= 'f' then Some(c as int - 'a' as int + 10)
    else None
  }

  /** The encoding of one byte. */
  function EncodeByte(b: byte): (r: string)
    ensures |r| == 1 || |r| == 3
  {
    if IsUnreservedByte(b) then [b as char]
    else if b == 0x20 then "+"
    else ['%', UpperHexDigit(b / 16), UpperHexDigit(b % 16)]
  }

  /** The encoding of a byte string: one to three characters per byte. */
  function QuoteBytes(bs: seq<byte>): (r: string)
    ensures |bs| <= |r| <= 3 * |bs|
  {
    if bs == [] then [] else EncodeByte(bs[0]) + QuoteBytes(bs[1..])
  }

  /** Unfolds the encoding of a byte string by one byte. */
  lemma QuoteBytesCons(b: byte, rest: seq<byte>)
    ensures QuoteBytes([b] + rest) == EncodeByte(b) + QuoteBytes(rest)
  {
    assert ([b] + rest)[1..] == rest;
  }

  /** Python's `quote_plus(s)` with its defaults (no extra safe characters, UTF-8, strict errors). */
  function QuotePlus(s: string): (r: string) {
    QuoteBytes(Utf8.Encode(s))
  }

  /** The encoding of a concatenation is the concatenation of the encodings. */
  lemma {:induction false} QuoteBytesAppend(a: seq<byte>, b: seq<byte>)
    ensures QuoteBytes(a + b) == QuoteBytes(a) + QuoteBytes(b)
  {
    if a == [] {
      assert a + b == b;
    } else {
      var u := a + b;
      assert u[0] == a[0] && u[1..] == a[1..] + b;
      var head := EncodeByte(a[0]);
      QuoteBytesAppend(a[1..], b);
      calc {
        QuoteBytes(u);
        head + QuoteBytes(a[1..] + b);
        head + (QuoteBytes(a[1..]) + QuoteBytes(b));
        (head + QuoteBytes(a[1..])) + QuoteBytes(b);
      }
    }
  }

  /** `quote_plus` of a concatenation is the concatenation of the `quote_plus` results. */
  lemma QuotePlusAppend(s: string, t: string)
    ensures QuotePlus(s + t) == QuotePlus(s) + QuotePlus(t)
  {
    Utf8.EncodeAppend(s, t);
    QuoteBytesAppend(Utf8.Encode(s), Utf8.Encode(t));
  }

  /**
   Strict form decoder: `+` is a space, `%HH` is the byte HH (either case), an
   unreserved character is itself, and anything else is rejected.
   */
  function Unquote(s: string): (r: Option<seq<byte>>)
  {
    if s == [] then Some([])
    else if s[0] == '+' then Prepend(0x20, Unquote(s[1..]))
    else if s[0] == '%' then
      if |s| < 3 || HexValue(s[1]).None? || HexValue(s[2]).None? then None
      else Prepend(HexValue(s[1]).value * 16 + HexValue(s[2]).value, Unquote(s[3..]))
    else if IsUnreservedChar(s[0]) then Prepend(s[0] as int, Unquote(s[1..]))
    else None
  }

  /** A decoded byte in front of the decoding of the rest, which may have failed. */
  function Prepend(b: byte, rest: Option<seq<byte>>): (r: Option<seq<byte>>)
    ensures r.Some? <==> rest.Some?
    ensures r.Some? ==> r.value == [b] + rest.value
  {
    match rest
    case None => None
    case Some(bs) => Some([b] + bs)
  }

  /**
   The strings the encoder can produce: unreserved characters, `+`, and
   upper-case `%HH` triplets whose byte is neither unreserved nor a space.
   */
  predicate Canonical(s: string)
    decreases |s|
  {
    if s == [] then true
    else if IsUnreservedChar(s[0]) || s[0] == '+' then Canonical(s[1..])
    else if s[0] == '%' && |s| >= 3 && IsUpperHex(s[1]) && IsUpperHex(s[2]) then
      var b := HexValue(s[1]).value * 16 + HexValue(s[2]).value;
      !IsUnreservedByte(b) && b != 0x20 && Canonical(s[3..])
    else false
  }

  /**
   The three forms of a byte's encoding: an unreserved byte stands for itself,
   a space is `+`, and every other byte is `%` and two upper-case hex digits
   that the hex decoder reads back as the byte.
   */
  lemma EncodeByteForms(b: byte)
    ensures IsUnreservedByte(b) <==> EncodeByte(b) == [b as char]
    ensures b == 0x20 <==> EncodeByte(b) == "+"
    ensures !IsUnreservedByte(b) && b != 0x20 <==> |EncodeByte(b)| == 3
    ensures var r := EncodeByte(b);
      |r| == 3 ==>
        && r[0] == '%' && IsUpperHex(r[1]) && IsUpperHex(r[2])
        && HexValue(r[1]).Some? && HexValue(r[2]).Some?
        && HexValue(r[1]).value * 16 + HexValue(r[2]).value == b
  {
  }

  /** One byte's encoding, followed by anything, decodes to that byte followed by the rest's decoding. */
  lemma UnquoteEncodeByte(b: byte, rest: string)
    ensures Unquote(EncodeByte(b) + rest) == Prepend(b, Unquote(rest))
  {
    var s := EncodeByte(b) + rest;
    if IsUnreservedByte(b) {
      assert s[1..] == rest;
    } else if b == 0x20 {
      assert s[1..] == rest;
    } else {
      assert s[3..] == rest;
      assert HexValue(s[1]) == Some(b / 16);
      assert HexValue(s[2]) == Some(b % 16);
    }
  }

  /** Round trip: the decoder recovers every byte string from its encoding. */
  lemma {:induction false} UnquoteQuoteBytes(bs: seq<byte>)
    ensures Unquote(QuoteBytes(bs)) == Some(bs)
  {
    if bs != [] {
      UnquoteEncodeByte(bs[0], QuoteBytes(bs[1..]));
      UnquoteQuoteBytes(bs[1..]);
      assert [bs[0]] + bs[1..] == bs;
    }
  }

  /** Round trip through both layers: the query text is recovered from `quote_plus` output. */
  lemma QuotePlusRoundTrip(s: string)
    ensures Unquote(QuotePlus(s)) == Some(Utf8.Encode(s))
    ensures Utf8.Decode(Unquote(QuotePlus(s)).value) == Some(s)
  {
    UnquoteQuoteBytes(Utf8.Encode(s));
    Utf8.DecodeEncode(s);
  }

  /** Prefixing one byte's encoding keeps a string canonical. */
  lemma CanonicalEncodeByte(b: byte, rest: string)
    requires Canonical(rest)
    ensures Canonical(EncodeByte(b) + rest)
  {
    var s := EncodeByte(b) + rest;
    if IsUnreservedByte(b) || b == 0x20 {
      assert s[1..] == rest;
    } else {
      assert s[3..] == rest;
      assert HexValue(s[1]) == Some(b / 16) && HexValue(s[2]) == Some(b % 16);
    }
  }

  /** Every encoding is canonical: only unreserved characters, `+` and upper-case `%HH` escapes. */
  lemma {:induction false} QuoteBytesCanonical(bs: seq<byte>)
    ensures Canonical(QuoteBytes(bs))
  {
    if bs != [] {
      QuoteBytesCanonical(bs[1..]);
      CanonicalEncodeByte(bs[0], QuoteBytes(bs[1..]));
    }
  }

  /** Every character of a canonical string is unreserved, `+` or `%`. */
  lemma {:induction false} CanonicalAlphabet(s: string)
    requires Canonical(s)
    ensures forall i :: 0 <= i < |s| ==> IsUnreservedChar(s[i]) || s[i] == '+' || s[i] == '%'
    decreases |s|
  {
    if s != [] {
      if IsUnreservedChar(s[0]) || s[0] == '+' {
        CanonicalAlphabet(s[1..]);
        assert forall i :: 1 <= i < |s| ==> s[i] == s[1..][i - 1];
      } else {
        CanonicalAlphabet(s[3..]);
        assert forall i :: 3 <= i < |s| ==> s[i] == s[3..][i - 3];
      }
    }
  }

  /** The encoder's output alphabet: every character is unreserved, `+` or `%`. */
  lemma QuoteBytesAlphabet(bs: seq<byte>)
    ensures forall i :: 0 <= i < |QuoteBytes(bs)| ==>
      var c := QuoteBytes(bs)[i];
      IsUnreservedChar(c) || c == '+' || c == '%'
  {
    QuoteBytesCanonical(bs);
    CanonicalAlphabet(QuoteBytes(bs));
  }

  /** Every canonical string is accepted by the decoder and re-encodes to itself. */
  lemma {:induction false} CanonicalQuoteUnquote(s: string)
    requires Canonical(s)
    ensures Unquote(s).Some? && QuoteBytes(Unquote(s).value) == s
    decreases |s|
  {
    if s != [] {
      if IsUnreservedChar(s[0]) || s[0] == '+' {
        CanonicalQuoteUnquote(s[1..]);
        CanonicalSingle(s);
      } else {
        CanonicalQuoteUnquote(s[3..]);
        CanonicalTriplet(s);
      }
    }
  }

  /** A canonical string that starts with an unreserved character or `+` re-encodes from its tail. */
  lemma CanonicalSingle(s: string)
    requires s != [] && (IsUnreservedChar(s[0]) || s[0] == '+')
    requires Unquote(s[1..]).Some? && QuoteBytes(Unquote(s[1..]).value) == s[1..]
    ensures Unquote(s).Some? && QuoteBytes(Unquote(s).value) == s
  {
    var b: byte := if s[0] == '+' then 0x20 else s[0] as int;
    var rest := Unquote(s[1..]).value;
    assert Unquote(s) == Some([b] + rest);
    ReencodeSingle(s, b, rest);
  }

  /** Re-encoding `[b] + rest` gives `s` back when `b` is written as `s[0]` and `rest` re-encodes to `s[1..]`. */
  lemma ReencodeSingle(s: string, b: byte, rest: seq<byte>)
    requires s != [] && (IsUnreservedChar(s[0]) || s[0] == '+')
    requires b == if s[0] == '+' then 0x20 else s[0] as int
    requires QuoteBytes(rest) == s[1..]
    ensures QuoteBytes([b] + rest) == s
  {
    QuoteBytesCons(b, rest);
    assert EncodeByte(b) == [s[0]];
    assert s == [s[0]] + s[1..];
  }

  /** A canonical string that starts with an escape re-encodes from its tail. */
  lemma CanonicalTriplet(s: string)
    requires s != [] && !IsUnreservedChar(s[0]) && s[0] != '+' && Canonical(s)
    requires Unquote(s[3..]).Some? && QuoteBytes(Unquote(s[3..]).value) == s[3..]
    ensures Unquote(s).Some? && QuoteBytes(Unquote(s).value) == s
  {
    var hi, lo := HexValue(s[1]).value, HexValue(s[2]).value;
    EscapeRoundTrip(s[1], s[2]);
    var b: byte := hi * 16 + lo;
    var rest := Unquote(s[3..]).value;
    assert Unquote(s) == Some([b] + rest);
    QuoteBytesCons(b, rest);
    assert s == s[..3] + s[3..];
  }

  /** Two upper-case hex digits name a byte whose escape is those two digits. */
  lemma EscapeRoundTrip(c1: char, c2: char)
    requires IsUpperHex(c1) && IsUpperHex(c2)
    ensures var b := HexValue(c1).value * 16 + HexValue(c2).value;
      b < 256 && UpperHexDigit(b / 16) == c1 && UpperHexDigit(b % 16) == c2
  {
  }


  /** The encoder is a bijection onto the canonical strings: `QuoteBytes(bs) == s` exactly when `s` is canonical and decodes to `bs`. */
  lemma QuoteBytesIffUnquote(bs: seq<byte>, s: string)
    ensures QuoteBytes(bs) == s <==> Canonical(s) && Unquote(s) == Some(bs)
  {
    if QuoteBytes(bs) == s {
      QuoteBytesCanonical(bs);
      UnquoteQuoteBytes(bs);
    }
    if Canonical(s) && Unquote(s) == Some(bs) {
      CanonicalQuoteUnquote(s);
    }
  }
}
