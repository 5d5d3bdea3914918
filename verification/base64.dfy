/** `Buffer.from(text).toString("base64")`, the encoding behind the token
    `Authorization` header: the text is first encoded as UTF-8 (the Buffer
    default), then as base64 with the standard alphabet and `=` padding of
    section 4 of RFC 4648. A decoder is given as the encoder's partner. */
module Base64 {
  import opened Wrappers

  type byte = x: int | 0 <= x < 256
  type index = x: int | 0 <= x < 64

  /** The 64-character alphabet of section 4 of RFC 4648: A-Z, a-z, 0-9, '+', '/'. */
  function Alphabet(i: index): char {
    if i < 26 then ('A' as int + i) as char
    else if i < 52 then ('a' as int + (i - 26)) as char
    else if i < 62 then ('0' as int + (i - 52)) as char
    else if i == 62 then '+'
    else '/'
  }

  /** Position of a character in the alphabet; padding and any other
      character have none. */
  function IndexOf(c: char): (r: Option<index>)
    ensures r.Some? ==> Alphabet(r.value) == c
  {
    if 'A' <= c <= 'Z' then Some(c as int - 'A' as int)
    else if 'a' <= c <= 'z' then Some(c as int - 'a' as int + 26)
    else if '0' <= c <= '9' then Some(c as int - '0' as int + 52)
    else if c == '+' then Some(62)
    else if c == '/' then Some(63)
    else None
  }

  lemma IndexOfAlphabet(i: index)
    ensures IndexOf(Alphabet(i)) == Some(i)
  {
  }

  /** Three bytes become four alphabet indices. */
  function Split3(b0: byte, b1: byte, b2: byte): (q: (index, index, index, index)) {
    (b0 / 4, (b0 % 4) * 16 + b1 / 16, (b1 % 16) * 4 + b2 / 64, b2 % 64)
  }

  /** Four alphabet indices become three bytes. */
  function Join4(i0: index, i1: index, i2: index, i3: index): (b: (byte, byte, byte)) {
    (i0 * 4 + i1 / 16, (i1 % 16) * 16 + i2 / 4, (i2 % 4) * 64 + i3)
  }

  lemma Split3Join4(i0: index, i1: index, i2: index, i3: index)
    ensures var b := Join4(i0, i1, i2, i3); Split3(b.0, b.1, b.2) == (i0, i1, i2, i3)
  {
    var b := Join4(i0, i1, i2, i3);
    assert b.0 / 4 == i0 && b.0 % 4 == i1 / 16;
    assert b.1 / 16 == i1 % 16 && b.1 % 16 == i2 / 4;
    assert b.2 / 64 == i2 % 4 && b.2 % 64 == i3;
  }

  lemma Join4Split3(b0: byte, b1: byte, b2: byte)
    ensures var q := Split3(b0, b1, b2); Join4(q.0, q.1, q.2, q.3) == (b0, b1, b2)
  {
    var q := Split3(b0, b1, b2);
    assert q.1 / 16 == b0 % 4 && q.1 % 16 == b1 / 16;
    assert q.2 / 4 == b1 % 16 && q.2 % 4 == b2 / 64;
  }

  /** Base64 text of a byte sequence, three bytes at a time; a final group
      of one or two bytes is padded with "==" or "=". */
  function Encode(b: seq<byte>): string
    decreases |b|
  {
    if |b| == 0 then ""
    else if |b| == 1 then
      var q := Split3(b[0], 0, 0);
      [Alphabet(q.0), Alphabet(q.1), '=', '=']
    else if |b| == 2 then
      var q := Split3(b[0], b[1], 0);
      [Alphabet(q.0), Alphabet(q.1), Alphabet(q.2), '=']
    else Group(b[0], b[1], b[2]) + Encode(b[3..])
  }

  /** The four characters of a full group of three bytes. */
  function Group(b0: byte, b1: byte, b2: byte): (g: string)
    ensures |g| == 4
  {
    var q := Split3(b0, b1, b2);
    [Alphabet(q.0), Alphabet(q.1), Alphabet(q.2), Alphabet(q.3)]
  }

  /** Bytes of a base64 text, or None when the text is not a sequence of
      four-character groups over the alphabet, with padding only at the end
      and the unused bits before the padding zero (the canonical form of
      section 3.5 of RFC 4648). */
  function Decode(s: string): Option<seq<byte>>
    decreases |s|
  {
    if |s| == 0 then Some([])
    else if |s| < 4 then None
    else
      var o0, o1, o2, o3 := IndexOf(s[0]), IndexOf(s[1]), IndexOf(s[2]), IndexOf(s[3]);
      if o0.None? || o1.None? then None
      else if o2.None? then
        if |s| == 4 && s[2] == '=' && s[3] == '=' && o1.value % 16 == 0 then
          Some([Join4(o0.value, o1.value, 0, 0).0])
        else None
      else if o3.None? then
        if |s| == 4 && s[3] == '=' && o2.value % 4 == 0 then
          var b := Join4(o0.value, o1.value, o2.value, 0); Some([b.0, b.1])
        else None
      else
        var b := Join4(o0.value, o1.value, o2.value, o3.value);
        match Decode(s[4..])
        case Some(rest) => Some([b.0, b.1, b.2] + rest)
        case None => None
  }

  /** A one-byte input encodes to one padded group that decodes back. */
  lemma DecodeOneByteGroup(b: seq<byte>)
    requires |b| == 1
    ensures Decode(Encode(b)) == Some(b)
  {
    var q := Split3(b[0], 0, 0);
    var s := [Alphabet(q.0), Alphabet(q.1), '=', '='];
    assert Encode(b) == s;
    IndexOfAlphabet(q.0);
    IndexOfAlphabet(q.1);
    Join4Split3(b[0], 0, 0);
    assert q.1 % 16 == 0;
    assert Decode(s) == Some([b[0]]);
    assert [b[0]] == b;
  }

  /** A two-byte input encodes to one padded group that decodes back. */
  lemma DecodeTwoByteGroup(b: seq<byte>)
    requires |b| == 2
    ensures Decode(Encode(b)) == Some(b)
  {
    var q := Split3(b[0], b[1], 0);
    var s := [Alphabet(q.0), Alphabet(q.1), Alphabet(q.2), '='];
    assert Encode(b) == s;
    IndexOfAlphabet(q.0);
    IndexOfAlphabet(q.1);
    IndexOfAlphabet(q.2);
    Join4Split3(b[0], b[1], 0);
    assert q.2 % 4 == 0;
    assert Decode(s) == Some([b[0], b[1]]);
    assert [b[0], b[1]] == b;
  }

  /** A full group decodes to its three bytes, ahead of whatever the text
      after it decodes to. */
  lemma DecodeGroupThen(b0: byte, b1: byte, b2: byte, t: string, rest: seq<byte>)
    requires Decode(t) == Some(rest)
    ensures Decode(Group(b0, b1, b2) + t) == Some([b0, b1, b2] + rest)
  {
    var q := Split3(b0, b1, b2);
    var s := Group(b0, b1, b2) + t;
    IndexOfAlphabet(q.0);
    IndexOfAlphabet(q.1);
    IndexOfAlphabet(q.2);
    IndexOfAlphabet(q.3);
    Join4Split3(b0, b1, b2);
    assert s[4..] == t;
  }

  /** A text made of the group of the first three bytes and a text that
      decodes to the remaining bytes decodes to all of them. */
  lemma DecodeFullGroup(b: seq<byte>, e: string, t: string)
    requires |b| >= 3
    requires e == Group(b[0], b[1], b[2]) + t
    requires Decode(t) == Some(b[3..])
    ensures Decode(e) == Some(b)
  {
    DecodeGroupThen(b[0], b[1], b[2], t, b[3..]);
    assert [b[0], b[1], b[2]] + b[3..] == b;
  }

  lemma EncodeFullGroup(b: seq<byte>)
    requires |b| >= 3
    ensures Encode(b) == Group(b[0], b[1], b[2]) + Encode(b[3..])
  {
  }

  /** Four characters for every started group of three bytes. */
  lemma {:induction false} EncodeLength(b: seq<byte>)
    ensures |Encode(b)| == 4 * ((|b| + 2) / 3)
    decreases |b|
  {
    if |b| >= 3 {
      EncodeFullGroup(b);
      EncodeLength(b[3..]);
      assert (|b| + 2) / 3 == (|b[3..]| + 2) / 3 + 1;
    }
  }

  /** Decoding undoes encoding: no information is lost. */
  lemma {:induction false} DecodeEncode(b: seq<byte>)
    ensures Decode(Encode(b)) == Some(b)
    decreases |b|
  {
    if |b| == 1 {
      DecodeOneByteGroup(b);
    } else if |b| == 2 {
      DecodeTwoByteGroup(b);
    } else if |b| >= 3 {
      DecodeEncode(b[3..]);
      EncodeFullGroup(b);
      DecodeFullGroup(b, Encode(b), Encode(b[3..]));
    }
  }

  /** A text ending in "==" that decodes is the encoding of its one byte. */
  lemma EncodeDecodeOnePad(s: string)
    requires |s| == 4 && s[2] == '=' && s[3] == '='
    requires Decode(s).Some?
    ensures Encode(Decode(s).value) == s
  {
    var i0, i1 := IndexOf(s[0]).value, IndexOf(s[1]).value;
    var b0 := Join4(i0, i1, 0, 0).0;
    assert Decode(s).value == [b0];
    assert b0 / 4 == i0 && b0 % 4 == i1 / 16;
    assert (b0 % 4) * 16 == i1;
  }

  /** A text ending in a single "=" that decodes is the encoding of its two bytes. */
  lemma EncodeDecodeTwoPad(s: string)
    requires |s| == 4 && IndexOf(s[2]).Some? && s[3] == '='
    requires Decode(s).Some?
    ensures Encode(Decode(s).value) == s
  {
    var i0, i1, i2 := IndexOf(s[0]).value, IndexOf(s[1]).value, IndexOf(s[2]).value;
    var b := Join4(i0, i1, i2, 0);
    assert Decode(s).value == [b.0, b.1];
    Split3Join4(i0, i1, i2, 0);
  }

  /** The group of the bytes four indices stand for is those four
      characters, ahead of the encoding of what follows. */
  lemma EncodeGroupThen(i0: index, i1: index, i2: index, i3: index, rest: seq<byte>)
    ensures var b := Join4(i0, i1, i2, i3);
            Encode([b.0, b.1, b.2] + rest) == [Alphabet(i0), Alphabet(i1), Alphabet(i2), Alphabet(i3)] + Encode(rest)
  {
    var b := Join4(i0, i1, i2, i3);
    var bytes := [b.0, b.1, b.2] + rest;
    EncodeFullGroup(bytes);
    assert bytes[3..] == rest;
    Split3Join4(i0, i1, i2, i3);
  }

  /** A text opening with a full group encodes back when the rest does. */
  lemma EncodeDecodeFull(s: string)
    requires |s| >= 4 && IndexOf(s[0]).Some? && IndexOf(s[1]).Some?
    requires IndexOf(s[2]).Some? && IndexOf(s[3]).Some?
    requires Decode(s[4..]).Some?
    requires Encode(Decode(s[4..]).value) == s[4..]
    ensures Decode(s).Some? && Encode(Decode(s).value) == s
  {
    var i0, i1, i2, i3 := IndexOf(s[0]).value, IndexOf(s[1]).value, IndexOf(s[2]).value, IndexOf(s[3]).value;
    var b := Join4(i0, i1, i2, i3);
    var t, rest := s[4..], Decode(s[4..]).value;
    var g := [Alphabet(i0), Alphabet(i1), Alphabet(i2), Alphabet(i3)];
    assert s == g + t;
    assert Group(b.0, b.1, b.2) == g by { Split3Join4(i0, i1, i2, i3); }
    assert Decode(s) == Some([b.0, b.1, b.2] + rest) by {
      Join4Split3(b.0, b.1, b.2);
      DecodeGroupThen(b.0, b.1, b.2, t, rest);
    }
    EncodeGroupThen(i0, i1, i2, i3, rest);
  }

  /** A text that decodes is the encoding of what it decodes to: each byte
      sequence has exactly one base64 text. */
  lemma {:induction false} EncodeDecode(s: string)
    requires Decode(s).Some?
    ensures Encode(Decode(s).value) == s
    decreases |s|
  {
    if |s| == 0 {
    } else if IndexOf(s[2]).None? {
      EncodeDecodeOnePad(s);
    } else if IndexOf(s[3]).None? {
      EncodeDecodeTwoPad(s);
    } else {
      assert Decode(s[4..]).Some?;
      EncodeDecode(s[4..]);
      EncodeDecodeFull(s);
    }
  }

  /** UTF-8 bytes of one Unicode scalar value. */
  function Utf8Char(c: char): (r: seq<byte>)
    ensures 1 <= |r| <= 4
    ensures c as int < 0x80 <==> |r| == 1
    ensures c as int < 0x80 ==> r == [c as int]
  {
    var v := c as int;
    if v < 0x80 then [v]
    else if v < 0x800 then [0xC0 + v / 64, 0x80 + v % 64]
    else if v < 0x10000 then [0xE0 + v / 4096, 0x80 + (v / 64) % 64, 0x80 + v % 64]
    else [0xF0 + v / 262144, 0x80 + (v / 4096) % 64, 0x80 + (v / 64) % 64, 0x80 + v % 64]
  }

  /** UTF-8 bytes of a text, character by character. */
  function Utf8(s: string): (r: seq<byte>)
    ensures |s| <= |r| <= 4 * |s|
    decreases |s|
  {
    if |s| == 0 then [] else Utf8Char(s[0]) + Utf8(s[1..])
  }

  /** Every character is below 0x80. */
  predicate Ascii(s: string) {
    forall i :: 0 <= i < |s| ==> s[i] as int < 0x80
  }

  /** On ASCII text, UTF-8 is the identity on character codes. */
  lemma {:induction false} Utf8Ascii(s: string)
    requires Ascii(s)
    ensures |Utf8(s)| == |s|
    ensures forall i :: 0 <= i < |s| ==> Utf8(s)[i] == s[i] as int
    decreases |s|
  {
    if |s| > 0 {
      Utf8Ascii(s[1..]);
      assert Utf8(s) == [s[0] as int] + Utf8(s[1..]);
    }
  }

  /** UTF-8 encoding distributes over concatenation. */
  lemma {:induction false} Utf8Append(s: string, t: string)
    ensures Utf8(s + t) == Utf8(s) + Utf8(t)
    decreases |s|
  {
    if |s| == 0 {
      assert s + t == t;
    } else {
      assert (s + t)[1..] == s[1..] + t;
      Utf8Append(s[1..], t);
    }
  }

  /** `Buffer.from(text).toString("base64")`. */
  function OfText(text: string): (r: string)
    ensures Decode(r) == Some(Utf8(text))
  {
    DecodeEncode(Utf8(text));
    Encode(Utf8(text))
  }

  /** The contract of `OfText` fixes the text: no other base64 text
      decodes to the same bytes. */
  lemma OfTextUnique(text: string, t: string)
    requires Decode(t) == Some(Utf8(text))
    ensures t == OfText(text)
  {
    EncodeDecode(t);
  }

  /** "abc:" encodes to "YWJjOg==": one full group and a one-byte tail. */
  lemma OfTextExample()
    ensures OfText("abc:") == "YWJjOg=="
  {
    var bytes := Utf8("abc:");
    assert Utf8(":") == [58];
    assert Utf8("c:") == [99, 58];
    assert Utf8("bc:") == [98, 99, 58];
    assert bytes == [97, 98, 99, 58];
    assert bytes[3..] == [58];
    assert Encode([58]) == "Og==";
    var q := Split3(97, 98, 99);
    assert q == (24, 22, 9, 35);
    assert Group(97, 98, 99) == [Alphabet(24), Alphabet(22), Alphabet(9), Alphabet(35)] == "YWJj";
    assert Encode(bytes) == Group(97, 98, 99) + Encode([58]);
  }
}
