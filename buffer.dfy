/**
 * The key codec: the schedule key embeds the publish target as the standard
 * Base64 text (the alphabet of section 4 of RFC 4648, with `=` padding) of the
 * target's UTF-8 bytes. Decoding is not used by the service, but it shows
 * that the encoding loses nothing, so distinct targets get distinct keys.
 */
module Buffer {
  import opened Wrappers

  type byte = x: int | 0 <= x < 256

  // ---------------------------------------------------------------- UTF-8

  /** The UTF-8 bytes of one Unicode scalar value. */
  function Utf8Char(c: char): (r: seq<byte>)
    ensures 1 <= |r| <= 4
  {
    var v := c as int;
    if v < 0x80 then [v]
    else if v < 0x800 then [0xC0 + v / 64, 0x80 + v % 64]
    else if v < 0x10000 then [0xE0 + v / 4096, 0x80 + (v / 64) % 64, 0x80 + v % 64]
    else [0xF0 + v / 262144, 0x80 + (v / 4096) % 64, 0x80 + (v / 64) % 64, 0x80 + v % 64]
  }

  /** The UTF-8 encoding of a string, as `Buffer.from(s)` produces it. */
  function Utf8(s: string): (r: seq<byte>)
    ensures |r| >= |s|
  {
    if s == [] then [] else Utf8Char(s[0]) + Utf8(s[1..])
  }

  predicate IsContinuation(b: byte) { 0x80 <= b < 0xC0 }

  function ToChar(v: int): Option<char> {
    if 0 <= v < 0xD800 || 0xE000 <= v < 0x110000 then Some(v as char) else None
  }

  /** Reads one scalar value from the front of `bs`: the value and how many bytes it took. */
  function ReadUtf8Char(bs: seq<byte>): (r: Option<(char, nat)>)
    ensures r.Some? ==> 1 <= r.value.1 <= |bs|
  {
    if bs == [] then None
    else
      var b0: int := bs[0];
      if b0 < 0x80 then ToCharWidth(b0, 1)
      else if 0xC0 <= b0 < 0xE0 && |bs| >= 2 && IsContinuation(bs[1]) then
        var b1: int := bs[1];
        ToCharWidth((b0 - 0xC0) * 64 + (b1 - 0x80), 2)
      else if 0xE0 <= b0 < 0xF0 && |bs| >= 3 && IsContinuation(bs[1]) && IsContinuation(bs[2]) then
        var b1: int, b2: int := bs[1], bs[2];
        ToCharWidth((b0 - 0xE0) * 4096 + (b1 - 0x80) * 64 + (b2 - 0x80), 3)
      else if 0xF0 <= b0 < 0xF8 && |bs| >= 4 && IsContinuation(bs[1]) && IsContinuation(bs[2])
           && IsContinuation(bs[3]) then
        var b1: int, b2: int, b3: int := bs[1], bs[2], bs[3];
        ToCharWidth((b0 - 0xF0) * 262144 + (b1 - 0x80) * 4096 + (b2 - 0x80) * 64 + (b3 - 0x80), 4)
      else None
  }

  function ToCharWidth(v: int, width: nat): Option<(char, nat)> {
    match ToChar(v)
    case Some(c) => Some((c, width))
    case None => None
  }

  /** Decodes UTF-8 bytes back into a string; None on a malformed sequence. */
  function Utf8Decode(bs: seq<byte>): Option<string>
    decreases |bs|
  {
    if bs == [] then Some([])
    else match ReadUtf8Char(bs)
      case None => None
      case Some((c, n)) =>
        match Utf8Decode(bs[n..])
        case None => None
        case Some(rest) => Some([c] + rest)
  }

  lemma ReadTwoByteChar(c: char, rest: seq<byte>)
    requires 0x80 <= c as int < 0x800
    ensures ReadUtf8Char(Utf8Char(c) + rest) == Some((c, 2))
  {
    var v := c as int;
    var bs := Utf8Char(c) + rest;
    assert bs[0] == 0xC0 + v / 64 && bs[1] == 0x80 + v % 64;
    assert (v / 64) * 64 + v % 64 == v;
  }

  lemma ReadThreeByteChar(c: char, rest: seq<byte>)
    requires 0x800 <= c as int < 0x10000
    ensures ReadUtf8Char(Utf8Char(c) + rest) == Some((c, 3))
  {
    var v := c as int;
    var bs := Utf8Char(c) + rest;
    assert bs[0] == 0xE0 + v / 4096 && bs[1] == 0x80 + (v / 64) % 64 && bs[2] == 0x80 + v % 64;
    assert (v / 4096) * 4096 + ((v / 64) % 64) * 64 + v % 64 == v;
  }

  /** The four 6-bit (3-bit for the lead) groups of a supplementary code point add back up to it. */
  lemma FourByteGroups(v: int)
    requires 0x10000 <= v < 0x110000
    ensures 0 <= v / 262144 < 8
    ensures (v / 262144) * 262144 + ((v / 4096) % 64) * 4096 + ((v / 64) % 64) * 64 + v % 64 == v
  {
    var q1 := v / 64;
    var q2 := v / 4096;
    var q3 := v / 262144;
    assert q2 == q1 / 64;
    assert q3 == q2 / 64;
    assert v == q1 * 64 + v % 64;
    assert q1 == q2 * 64 + q1 % 64;
    assert q2 == q3 * 64 + q2 % 64;
  }

  lemma ReadFourByteChar(c: char, rest: seq<byte>)
    requires 0x10000 <= c as int
    ensures ReadUtf8Char(Utf8Char(c) + rest) == Some((c, 4))
  {
    var v := c as int;
    assert v < 0x110000;
    var bs := Utf8Char(c) + rest;
    assert bs[0] == 0xF0 + v / 262144 && bs[1] == 0x80 + (v / 4096) % 64;
    assert bs[2] == 0x80 + (v / 64) % 64 && bs[3] == 0x80 + v % 64;
    FourByteGroups(v);
  }

  /** The reader takes back exactly the bytes the encoder wrote for one scalar value. */
  lemma ReadUtf8CharOfEncoded(c: char, rest: seq<byte>)
    ensures ReadUtf8Char(Utf8Char(c) + rest) == Some((c, |Utf8Char(c)|))
  {
    var v := c as int;
    if v < 0x80 {
    } else if v < 0x800 {
      ReadTwoByteChar(c, rest);
    } else if v < 0x10000 {
      ReadThreeByteChar(c, rest);
    } else {
      ReadFourByteChar(c, rest);
    }
  }

  /** UTF-8 decoding undoes UTF-8 encoding. */
  lemma {:induction false} Utf8RoundTrip(s: string)
    ensures Utf8Decode(Utf8(s)) == Some(s)
  {
    if s != [] {
      var bs := Utf8(s);
      ReadUtf8CharOfEncoded(s[0], Utf8(s[1..]));
      assert bs[|Utf8Char(s[0])|..] == Utf8(s[1..]);
      Utf8RoundTrip(s[1..]);
      assert [s[0]] + s[1..] == s;
    }
  }

  // --------------------------------------------------------------- Base64

  /** The 64-character alphabet of section 4 of RFC 4648. */
  function Alphabet(i: nat): char
    requires i < 64
  {
    if i < 26 then ('A' as int + i) as char
    else if i < 52 then ('a' as int + i - 26) as char
    else if i < 62 then ('0' as int + i - 52) as char
    else if i == 62 then '+'
    else '/'
  }

  /** The position of `c` in the alphabet, if it is one of its characters. */
  function AlphabetIndex(c: char): (r: Option<nat>)
    ensures r.Some? ==> r.value < 64
  {
    if 'A' <= c <= 'Z' then Some(c as int - 'A' as int)
    else if 'a' <= c <= 'z' then Some(c as int - 'a' as int + 26)
    else if '0' <= c <= '9' then Some(c as int - '0' as int + 52)
    else if c == '+' then Some(62)
    else if c == '/' then Some(63)
    else None
  }

  /** The index finds every alphabet character at its own position. */
  lemma IndexOfAlphabet(i: nat)
    requires i < 64
    ensures AlphabetIndex(Alphabet(i)) == Some(i)
  {
  }

  /** Every character the index accepts is the alphabet's character at that index. */
  lemma AlphabetOfIndex(c: char)
    requires AlphabetIndex(c).Some?
    ensures Alphabet(AlphabetIndex(c).value) == c
  {
  }

  predicate IsBase64Char(c: char) {
    AlphabetIndex(c).Some? || c == '='
  }

  /** Text made only of alphabet characters and padding. */
  predicate IsBase64Text(s: string) {
    forall i :: 0 <= i < |s| ==> IsBase64Char(s[i])
  }

  /** The four characters written for the first (up to) three bytes of `bs`, padded with `=`. */
  function Quad(bs: seq<byte>): (q: string)
    requires |bs| > 0
    ensures |q| == 4
  {
    if |bs| == 1 then [Alphabet(bs[0] / 4), Alphabet((bs[0] % 4) * 16), '=', '=']
    else if |bs| == 2 then
      [Alphabet(bs[0] / 4), Alphabet((bs[0] % 4) * 16 + bs[1] / 16), Alphabet((bs[1] % 16) * 4), '=']
    else
      [Alphabet(bs[0] / 4), Alphabet((bs[0] % 4) * 16 + bs[1] / 16),
       Alphabet((bs[1] % 16) * 4 + bs[2] / 64), Alphabet(bs[2] % 64)]
  }

  /** Standard Base64 with `=` padding: every 3 bytes become 4 characters. */
  function Base64(bs: seq<byte>): string
  {
    if |bs| == 0 then ""
    else if |bs| == 1 then
      [Alphabet(bs[0] / 4), Alphabet((bs[0] % 4) * 16), '=', '=']
    else if |bs| == 2 then
      [Alphabet(bs[0] / 4), Alphabet((bs[0] % 4) * 16 + bs[1] / 16), Alphabet((bs[1] % 16) * 4), '=']
    else
      [Alphabet(bs[0] / 4), Alphabet((bs[0] % 4) * 16 + bs[1] / 16),
       Alphabet((bs[1] % 16) * 4 + bs[2] / 64), Alphabet(bs[2] % 64)]
      + Base64(bs[3..])
  }

  /** Every started group of three bytes takes four characters. */
  lemma {:induction false} Base64Length(bs: seq<byte>)
    ensures |Base64(bs)| == 4 * ((|bs| + 2) / 3)
  {
    if |bs| > 3 {
      Base64Length(bs[3..]);
      assert (|bs| + 2) / 3 == (|bs[3..]| + 2) / 3 + 1;
    }
  }

  /** A group holds only alphabet characters and padding. */
  lemma QuadText(bs: seq<byte>)
    requires |bs| > 0
    ensures IsBase64Text(Quad(bs))
  {
    var q := Quad(bs);
    IndexOfAlphabet(bs[0] / 4);
    if |bs| == 1 {
      IndexOfAlphabet((bs[0] % 4) * 16);
    } else if |bs| == 2 {
      IndexOfAlphabet((bs[0] % 4) * 16 + bs[1] / 16);
      IndexOfAlphabet((bs[1] % 16) * 4);
    } else {
      IndexOfAlphabet((bs[0] % 4) * 16 + bs[1] / 16);
      IndexOfAlphabet((bs[1] % 16) * 4 + bs[2] / 64);
      IndexOfAlphabet(bs[2] % 64);
    }
  }

  /** Base64 text holds only alphabet characters and padding. */
  lemma {:induction false} Base64Text(bs: seq<byte>)
    ensures IsBase64Text(Base64(bs))
  {
    if bs != [] {
      QuadText(bs);
      QuadShape(bs);
      if |bs| > 3 {
        Base64Text(bs[3..]);
      }
    }
  }

  /** Decodes one group of four characters; padding only where `last` allows it. */
  function DecodeQuad(q: string, last: bool): (r: Option<seq<byte>>)
    requires |q| == 4
  {
    var i0, i1, i2, i3 := AlphabetIndex(q[0]), AlphabetIndex(q[1]), AlphabetIndex(q[2]), AlphabetIndex(q[3]);
    if i0.None? || i1.None? then None
    else if last && q[2] == '=' && q[3] == '=' then
      Some([i0.value * 4 + i1.value / 16])
    else if i2.None? then None
    else if last && q[3] == '=' then
      Some([i0.value * 4 + i1.value / 16, (i1.value % 16) * 16 + i2.value / 4])
    else if i3.None? then None
    else
      Some([i0.value * 4 + i1.value / 16, (i1.value % 16) * 16 + i2.value / 4, (i2.value % 4) * 64 + i3.value])
  }

  /** Standard Base64 decoding; None on text that is not padded Base64. */
  function Base64Decode(s: string): Option<seq<byte>>
    decreases |s|
  {
    if s == [] then Some([])
    else if |s| < 4 then None
    else match DecodeQuad(s[..4], |s| == 4)
      case None => None
      case Some(g) =>
        match Base64Decode(s[4..])
        case None => None
        case Some(rest) => Some(g + rest)
  }

  /** Splitting `a * 16 + b` back into `a` and `b`. */
  lemma DivMod16(a: nat, b: nat)
    requires b < 16
    ensures (a * 16 + b) / 16 == a && (a * 16 + b) % 16 == b
  {
  }

  /** Splitting `a * 4 + b` back into `a` and `b`. */
  lemma DivMod4(a: nat, b: nat)
    requires b < 4
    ensures (a * 4 + b) / 4 == a && (a * 4 + b) % 4 == b
  {
  }

  /** The arithmetic behind one group: the four sextets give back the three bytes. */
  lemma QuadArithmetic(b0: byte, b1: byte, b2: byte)
    ensures (b0 / 4) * 4 + ((b0 % 4) * 16 + b1 / 16) / 16 == b0
    ensures (((b0 % 4) * 16 + b1 / 16) % 16) * 16 + ((b1 % 16) * 4 + b2 / 64) / 4 == b1
    ensures (((b1 % 16) * 4 + b2 / 64) % 4) * 64 + b2 % 64 == b2
  {
    DivMod16(b0 % 4, b1 / 16);
    DivMod4(b1 % 16, b2 / 64);
  }

  /** `Base64` writes its first group exactly as `Quad` does, then the rest. */
  lemma QuadShape(bs: seq<byte>)
    requires |bs| > 0
    ensures Base64(bs) == Quad(bs) + (if |bs| <= 3 then "" else Base64(bs[3..]))
  {
  }

  lemma DecodeOneByteQuad(bs: seq<byte>)
    requires |bs| == 1
    ensures DecodeQuad(Quad(bs), true) == Some(bs)
  {
    IndexOfAlphabet(bs[0] / 4);
    IndexOfAlphabet((bs[0] % 4) * 16);
    QuadArithmetic(bs[0], 0, 0);
    assert bs == [bs[0]];
  }

  lemma DecodeTwoByteQuad(bs: seq<byte>)
    requires |bs| == 2
    ensures DecodeQuad(Quad(bs), true) == Some(bs)
  {
    var q := Quad(bs);
    IndexOfAlphabet(bs[0] / 4);
    IndexOfAlphabet((bs[0] % 4) * 16 + bs[1] / 16);
    IndexOfAlphabet((bs[1] % 16) * 4);
    QuadArithmetic(bs[0], bs[1], 0);
    assert q[2] != '=';
    assert bs == [bs[0], bs[1]];
  }

  lemma DecodeFullQuad(bs: seq<byte>, last: bool)
    requires |bs| >= 3
    ensures DecodeQuad(Quad(bs), last) == Some(bs[..3])
  {
    var q := Quad(bs);
    IndexOfAlphabet(bs[0] / 4);
    IndexOfAlphabet((bs[0] % 4) * 16 + bs[1] / 16);
    IndexOfAlphabet((bs[1] % 16) * 4 + bs[2] / 64);
    IndexOfAlphabet(bs[2] % 64);
    QuadArithmetic(bs[0], bs[1], bs[2]);
    assert q[2] != '=' && q[3] != '=';
    assert bs[..3] == [bs[0], bs[1], bs[2]];
  }

  /** Base64 decoding undoes Base64 encoding. */
  lemma {:induction false} Base64RoundTrip(bs: seq<byte>)
    ensures Base64Decode(Base64(bs)) == Some(bs)
  {
    if bs != [] {
      var s := Base64(bs);
      QuadShape(bs);
      assert s[..4] == Quad(bs);
      if |bs| == 1 {
        DecodeOneByteQuad(bs);
        assert |s| == 4 && s[4..] == [];
        assert Base64Decode(s) == Some(bs + []);
        assert bs + [] == bs;
      } else if |bs| == 2 {
        DecodeTwoByteQuad(bs);
        assert |s| == 4 && s[4..] == [];
        assert Base64Decode(s) == Some(bs + []);
        assert bs + [] == bs;
      } else {
        DecodeFullQuad(bs, |s| == 4);
        if |bs| == 3 {
          assert |s| == 4 && s[4..] == [] && bs[..3] == bs;
          assert Base64Decode(s) == Some(bs + []);
          assert bs + [] == bs;
        } else {
          assert s[4..] == Base64(bs[3..]);
          Base64RoundTrip(bs[3..]);
          assert bs[..3] + bs[3..] == bs;
        }
      }
    }
  }

  // ------------------------------------------------- working a text piecewise

  lemma {:induction false} Utf8Concat(a: string, b: string)
    ensures Utf8(a + b) == Utf8(a) + Utf8(b)
  {
    if a != [] {
      assert (a + b)[1..] == a[1..] + b;
      Utf8Concat(a[1..], b);
    } else {
      assert a + b == b;
    }
  }

  predicate IsAscii(s: string) {
    forall i :: 0 <= i < |s| ==> s[i] as int < 0x80
  }

  lemma {:induction false} Utf8AsciiLength(s: string)
    requires IsAscii(s)
    ensures |Utf8(s)| == |s|
  {
    if s != [] {
      Utf8AsciiLength(s[1..]);
    }
  }

  /** Bytes cut after a whole number of groups encode piece by piece. */
  lemma {:induction false} Base64Concat(a: seq<byte>, b: seq<byte>)
    requires |a| % 3 == 0
    ensures Base64(a + b) == Base64(a) + Base64(b)
  {
    if a == [] {
      assert a + b == b;
    } else {
      assert (a + b)[3..] == a[3..] + b;
      Base64Concat(a[3..], b);
    }
  }

  /** Text whose length is a multiple of three in ASCII encodes group by group. */
  lemma EncodeConcat(a: string, b: string)
    requires IsAscii(a) && |a| % 3 == 0
    ensures Encode(a + b) == Encode(a) + Encode(b)
  {
    Utf8Concat(a, b);
    Utf8AsciiLength(a);
    Base64Concat(Utf8(a), Utf8(b));
  }

  /** The code points of a three-character text. */
  function Triple(t: string): seq<byte>
    requires |t| == 3 && IsAscii(t)
  {
    [t[0] as int, t[1] as int, t[2] as int]
  }

  lemma EncodeAsciiTriple(t: string)
    requires |t| == 3 && IsAscii(t)
    ensures Encode(t) == Quad(Triple(t))
  {
    assert t[1..][1..][1..] == [];
    assert Utf8(t[2..]) == [t[2] as int];
    assert Utf8(t[1..]) == [t[1] as int, t[2] as int];
    assert Utf8(t) == Triple(t);
    QuadShape(Utf8(t));
  }

  // ------------------------------------------------------------ the codec

  /** `buf.encode(text)`: the Base64 text of the UTF-8 bytes of `text`. */
  function Encode(text: string): (r: string)
    ensures IsBase64Text(r)
    ensures |r| == 4 * ((|Utf8(text)| + 2) / 3)
  {
    Base64Text(Utf8(text));
    Base64Length(Utf8(text));
    Base64(Utf8(text))
  }

  function Decode(token: string): Option<string> {
    match Base64Decode(token)
    case None => None
    case Some(bs) => Utf8Decode(bs)
  }

  /** The encoding is reversible, hence injective. */
  lemma EncodeRoundTrip(text: string)
    ensures Decode(Encode(text)) == Some(text)
  {
    Base64RoundTrip(Utf8(text));
    Utf8RoundTrip(text);
  }

  lemma EncodeInjective(a: string, b: string)
    requires Encode(a) == Encode(b)
    ensures a == b
  {
    EncodeRoundTrip(a);
    EncodeRoundTrip(b);
  }
}
