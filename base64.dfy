/** Base64 encoding of photo bytes, as the "base64" encoding of section 4 of
    RFC 4648: the standard 64-character alphabet, '=' padding, no line breaks.
    Encode is what the controller applies to a room's photo bytes; Decode is its
    partner, used to state that no information is lost. */
module Base64 {
  import opened Wrappers

  /** An unsigned octet (Java's byte array element, read without its sign). */
  type Byte = b: int | 0 <= b < 256

  /** A 6-bit group, the index of one character of the alphabet. */
  type Sextet = s: int | 0 <= s < 64

  const Padding: char := '='

  predicate IsAlphabetChar(c: char) {
    ('A' <= c <= 'Z') || ('a' <= c <= 'z') || ('0' <= c <= '9') || c == '+' || c == '/'
  }

  /** Table 1 of RFC 4648: value 0..25 is 'A'..'Z', 26..51 is 'a'..'z',
      52..61 is '0'..'9', 62 is '+', 63 is '/'. */
  function CharOf(s: Sextet): (c: char)
    ensures IsAlphabetChar(c)
  {
    if s < 26 then ('A' as int + s) as char
    else if s < 52 then ('a' as int + (s - 26)) as char
    else if s < 62 then ('0' as int + (s - 52)) as char
    else if s == 62 then '+'
    else '/'
  }

  function SextetOf(c: char): (s: Sextet)
    requires IsAlphabetChar(c)
    ensures CharOf(s) == c
  {
    if 'A' <= c <= 'Z' then c as int - 'A' as int
    else if 'a' <= c <= 'z' then c as int - 'a' as int + 26
    else if '0' <= c <= '9' then c as int - '0' as int + 52
    else if c == '+' then 62
    else 63
  }

  /** Three octets become four characters. */
  function EncodeTriple(b0: Byte, b1: Byte, b2: Byte): string {
    [CharOf(b0 / 4), CharOf((b0 % 4) * 16 + b1 / 16), CharOf((b1 % 16) * 4 + b2 / 64), CharOf(b2 % 64)]
  }

  /** A final group of two octets: three characters and one '='. */
  function EncodePair(b0: Byte, b1: Byte): string {
    [CharOf(b0 / 4), CharOf((b0 % 4) * 16 + b1 / 16), CharOf((b1 % 16) * 4), Padding]
  }

  /** A final group of one octet: two characters and "==". */
  function EncodeSingle(b0: Byte): string {
    [CharOf(b0 / 4), CharOf((b0 % 4) * 16), Padding, Padding]
  }

  /** The encoded text: four characters per started group of three octets,
      only alphabet characters except for padding in the last two positions. */
  function Encode(data: seq<Byte>): (text: string)
    ensures |text| == 4 * ((|data| + 2) / 3)
    ensures forall i :: 0 <= i < |text| - 2 ==> IsAlphabetChar(text[i])
    ensures forall i :: 0 <= i < |text| ==> IsAlphabetChar(text[i]) || text[i] == Padding
    decreases |data|
  {
    if |data| == 0 then ""
    else if |data| == 1 then EncodeSingle(data[0])
    else if |data| == 2 then EncodePair(data[0], data[1])
    else EncodeTriple(data[0], data[1], data[2]) + Encode(data[3..])
  }

  /** Four alphabet characters become three octets (the inverse of EncodeTriple). */
  function DecodeQuad(g: string): (r: Option<seq<Byte>>)
    requires |g| == 4
    ensures r.Some? ==> |r.value| == 3
  {
    if !IsAlphabetChar(g[0]) || !IsAlphabetChar(g[1]) || !IsAlphabetChar(g[2]) || !IsAlphabetChar(g[3]) then None
    else
      var s0, s1, s2, s3 := SextetOf(g[0]), SextetOf(g[1]), SextetOf(g[2]), SextetOf(g[3]);
      Some([HighByte(s0, s1), MiddleByte(s1, s2), LowByte(s2, s3)])
  }

  /** The last group of four characters, which may end in one or two '='.
      The bits left over before the padding must be zero (section 3.5 of
      RFC 4648 lets a decoder insist on this), so each byte sequence has
      exactly one text that decodes to it. */
  function DecodeLast(g: string): (r: Option<seq<Byte>>)
    requires |g| == 4
    ensures r.Some? ==> 1 <= |r.value| <= 3
  {
    if !IsAlphabetChar(g[0]) || !IsAlphabetChar(g[1]) then None
    else
      var s0, s1 := SextetOf(g[0]), SextetOf(g[1]);
      if g[2] == Padding && g[3] == Padding then
        if s1 % 16 == 0 then Some([HighByte(s0, s1)]) else None
      else if IsAlphabetChar(g[2]) && g[3] == Padding then
        var s2 := SextetOf(g[2]);
        if s2 % 4 == 0 then Some([HighByte(s0, s1), MiddleByte(s1, s2)]) else None
      else DecodeQuad(g)
  }

  /** The decoder: groups of four characters, padding only in the last group.
      It yields None for text that no octet sequence encodes to in this shape. */
  function Decode(text: string): (r: Option<seq<Byte>>)
    ensures r.Some? ==> |text| % 4 == 0
    ensures r.Some? ==> (r.value == [] <==> text == [])
    decreases |text|
  {
    if |text| == 0 then Some([])
    else if |text| < 4 then None
    else if |text| == 4 then DecodeLast(text)
    else
      match DecodeQuad(text[..4])
      case None => None
      case Some(head) =>
        match Decode(text[4..])
        case None => None
        case Some(tail) => Some(head + tail)
  }

  /** Every octet sequence is recovered from its encoding: the encoding loses
      nothing, so distinct photos get distinct texts. */
  lemma {:induction false} DecodeEncode(data: seq<Byte>)
    ensures Decode(Encode(data)) == Some(data)
    decreases |data|
  {
    if |data| == 0 {
    } else if |data| == 1 {
      SingleRoundTrip(data[0]);
      assert data == [data[0]];
    } else if |data| == 2 {
      PairRoundTrip(data[0], data[1]);
      assert data == [data[0], data[1]];
    } else {
      var b := [data[0], data[1], data[2]];
      var head, rest := EncodeTriple(data[0], data[1], data[2]), Encode(data[3..]);
      assert data == b + data[3..];
      assert Encode(data) == head + rest;
      TripleRoundTrip(data[0], data[1], data[2]);
      if |data| == 3 {
        assert rest == [] && head + rest == head && data == b;
        assert Decode(head) == DecodeLast(head);
      } else {
        DecodeEncode(data[3..]);
        DecodeGroupThenRest(head, rest);
        assert Decode(head + rest) == Some(b + data[3..]);
      }
    }
  }

  /** Decoding a full group followed by more text decodes each part. */
  lemma DecodeGroupThenRest(g: string, rest: string)
    requires |g| == 4 && |rest| > 0
    ensures Decode(g + rest) ==
      match DecodeQuad(g)
      case None => None
      case Some(head) => (match Decode(rest) case None => None case Some(tail) => Some(head + tail))
  {
    assert (g + rest)[..4] == g;
    assert (g + rest)[4..] == rest;
  }

  /** The converse: the only text that decodes to some bytes is their
      encoding. With DecodeEncode, `Decode(t) == Some(b)` holds exactly when
      `t == Encode(b)`, so stating a photo by what it decodes to pins its text. */
  lemma {:induction false} EncodeDecode(text: string, data: seq<Byte>)
    requires Decode(text) == Some(data)
    ensures Encode(data) == text
    decreases |text|
  {
    if |text| == 0 {
    } else if |text| == 4 {
      LastGroupCanonical(text);
      if |data| == 3 {
        assert data[3..] == [];
        assert Encode(data) == EncodeTriple(data[0], data[1], data[2]) + Encode([]);
      }
    } else {
      var head, tail := DecodeQuad(text[..4]).value, Decode(text[4..]).value;
      assert data == head + tail;
      QuadCanonical(text[..4]);
      EncodeDecode(text[4..], tail);
      assert data[3..] == tail;
      assert text == text[..4] + text[4..];
    }
  }

  /** A text decodes to some bytes exactly when it is their encoding. */
  lemma DecodeIffEncode(text: string, data: seq<Byte>)
    ensures Decode(text) == Some(data) <==> text == Encode(data)
  {
    DecodeEncode(data);
    if Decode(text) == Some(data) {
      EncodeDecode(text, data);
    }
  }

  /** A final group is the encoding of what it decodes to. */
  lemma LastGroupCanonical(g: string)
    requires |g| == 4 && DecodeLast(g).Some?
    ensures var b := DecodeLast(g).value;
            (|b| == 1 ==> EncodeSingle(b[0]) == g) &&
            (|b| == 2 ==> EncodePair(b[0], b[1]) == g) &&
            (|b| == 3 ==> EncodeTriple(b[0], b[1], b[2]) == g)
  {
    var s0, s1 := SextetOf(g[0]), SextetOf(g[1]);
    var b0 := HighByte(s0, s1);
    if g[2] == Padding && g[3] == Padding {
      assert (b0 % 4) * 16 == s1;
      assert EncodeSingle(b0) == [CharOf(s0), CharOf(s1), Padding, Padding];
    } else if IsAlphabetChar(g[2]) && g[3] == Padding {
      var s2 := SextetOf(g[2]);
      var b1 := MiddleByte(s1, s2);
      assert (b1 % 16) * 4 == s2;
      assert EncodePair(b0, b1) == [CharOf(s0), CharOf(s1), CharOf(s2), Padding];
    } else {
      QuadCanonical(g);
    }
  }

  /** A full group is the encoding of what it decodes to. */
  lemma QuadCanonical(g: string)
    requires |g| == 4 && DecodeQuad(g).Some?
    ensures var b := DecodeQuad(g).value; EncodeTriple(b[0], b[1], b[2]) == g
  {
    var s0, s1, s2, s3 := SextetOf(g[0]), SextetOf(g[1]), SextetOf(g[2]), SextetOf(g[3]);
    var b0, b1, b2 := HighByte(s0, s1), MiddleByte(s1, s2), LowByte(s2, s3);
    assert EncodeTriple(b0, b1, b2) == [CharOf(s0), CharOf(s1), CharOf(s2), CharOf(s3)];
  }

  /** The first byte of a group, from its first two sextets, and how the
      encoder splits it back. */
  function HighByte(s0: Sextet, s1: Sextet): (b: Byte)
    ensures b / 4 == s0 && b % 4 == s1 / 16
    ensures (b % 4) * 16 + s1 % 16 == s1
  {
    s0 * 4 + s1 / 16
  }

  /** The second byte of a group, from its second and third sextets. */
  function MiddleByte(s1: Sextet, s2: Sextet): (b: Byte)
    ensures b / 16 == s1 % 16 && b % 16 == s2 / 4
    ensures (b % 16) * 4 + s2 % 4 == s2
  {
    (s1 % 16) * 16 + s2 / 4
  }

  /** The third byte of a group, from its last two sextets. */
  function LowByte(s2: Sextet, s3: Sextet): (b: Byte)
    ensures b / 64 == s2 % 4 && b % 64 == s3
  {
    (s2 % 4) * 64 + s3
  }

  lemma SingleRoundTrip(b0: Byte)
    ensures Decode(EncodeSingle(b0)) == Some([b0])
  {
    var t := EncodeSingle(b0);
    assert SextetOf(t[0]) == b0 / 4 && SextetOf(t[1]) == (b0 % 4) * 16;
  }

  lemma PairRoundTrip(b0: Byte, b1: Byte)
    ensures Decode(EncodePair(b0, b1)) == Some([b0, b1])
  {
    var t := EncodePair(b0, b1);
    assert SextetOf(t[0]) == b0 / 4 && SextetOf(t[1]) == (b0 % 4) * 16 + b1 / 16;
    assert SextetOf(t[2]) == (b1 % 16) * 4;
  }

  lemma TripleRoundTrip(b0: Byte, b1: Byte, b2: Byte)
    ensures DecodeQuad(EncodeTriple(b0, b1, b2)) == Some([b0, b1, b2])
    ensures DecodeLast(EncodeTriple(b0, b1, b2)) == Some([b0, b1, b2])
  {
    var t := EncodeTriple(b0, b1, b2);
    var s1, s2 := (b0 % 4) * 16 + b1 / 16, (b1 % 16) * 4 + b2 / 64;
    assert SextetOf(t[0]) == b0 / 4 && SextetOf(t[1]) == s1;
    assert SextetOf(t[2]) == s2 && SextetOf(t[3]) == b2 % 64;
    assert s1 / 16 == b0 % 4 && s1 % 16 == b1 / 16;
    assert s2 / 4 == b1 % 16 && s2 % 4 == b2 / 64;
  }

  /** The encoding is empty exactly for the empty photo, so a photo that is
      present and non-empty never shows as an empty string. */
  lemma EncodeEmptyIff(data: seq<Byte>)
    ensures Encode(data) == "" <==> data == []
  {
  }
}
