/**
  UTF-8 as defined in section 3 of RFC 3629: the bytes of a prefixed string.
  Text is a Dafny `string`, whose characters are exactly the Unicode scalar
  values (U+0000 to U+10FFFF without the surrogates U+D800 to U+DFFF), the
  characters UTF-8 can encode.
 */
module Utf8 {
  import opened Base

  /** Bytes 0x80-0xBF: the trailing bytes of a multi-byte sequence. */
  predicate IsTail(b: byte) {
    0x80 <= b < 0xC0
  }

  /** The UTF-8 bytes of one character: 1 to 4 bytes as the code point needs. */
  function EncodeChar(ch: char): (r: seq<byte>)
    ensures 1 <= |r| <= 4
  {
    var c := ch as int;
    if c < 0x80 then
      [c]
    else if c < 0x800 then
      [0xC0 + c / 0x40, 0x80 + c % 0x40]
    else if c < 0x1_0000 then
      [0xE0 + c / 0x1000, 0x80 + (c / 0x40) % 0x40, 0x80 + c % 0x40]
    else
      [0xF0 + c / 0x4_0000, 0x80 + (c / 0x1000) % 0x40, 0x80 + (c / 0x40) % 0x40, 0x80 + c % 0x40]
  }

  /**
    The character at the head of `s` and its byte length, when `s` starts
    with a well-formed UTF-8 sequence: a valid lead byte, the right number of
    trailing bytes, and no overlong form, surrogate or code point above
    U+10FFFF.
   */
  function DecodeChar(s: seq<byte>): (r: Option<(char, nat)>)
    ensures r.Some? ==> 1 <= r.value.1 <= |s| && r.value.1 <= 4
  {
    if |s| == 0 then None
    else
      var b0 := s[0] as int;
      if b0 < 0x80 then
        Some((b0 as char, 1))
      else if 0xC2 <= b0 < 0xE0 && |s| >= 2 && IsTail(s[1]) then
        var c := (b0 - 0xC0) * 0x40 + (s[1] as int - 0x80);
        Some((c as char, 2))
      else if 0xE0 <= b0 < 0xF0 && |s| >= 3 && IsTail(s[1]) && IsTail(s[2]) then
        var c := (b0 - 0xE0) * 0x1000 + (s[1] as int - 0x80) * 0x40 + (s[2] as int - 0x80);
        if 0x800 <= c && !(0xD800 <= c < 0xE000) then Some((c as char, 3)) else None
      else if 0xF0 <= b0 < 0xF5 && |s| >= 4 && IsTail(s[1]) && IsTail(s[2]) && IsTail(s[3]) then
        var c := (b0 - 0xF0) * 0x4_0000 + (s[1] as int - 0x80) * 0x1000
               + (s[2] as int - 0x80) * 0x40 + (s[3] as int - 0x80);
        if 0x1_0000 <= c < 0x11_0000 then Some((c as char, 4)) else None
      else
        None
  }

  /** The UTF-8 encoding of a string: its characters' encodings in order. */
  function Encode(text: string): (r: seq<byte>)
    ensures |text| <= |r| <= 4 * |text|
  {
    if text == [] then [] else EncodeChar(text[0]) + Encode(text[1..])
  }

  /** Decodes well-formed UTF-8; `None` for any malformed byte sequence. */
  function Decode(s: seq<byte>): (r: Option<string>)
    ensures r.Some? ==> |r.value| <= |s|
    decreases |s|
  {
    if s == [] then Some([])
    else
      match DecodeChar(s)
      case None => None
      case Some((ch, n)) =>
        match Decode(s[n..])
        case None => None
        case Some(rest) => Some([ch] + rest)
  }

  // ---------------------------------------------------------------------------
  // One character
  // ---------------------------------------------------------------------------

  lemma DivMod64(c: int, q: int, r: int)
    requires c == q * 0x40 + r && 0 <= r < 0x40
    ensures c / 0x40 == q && c % 0x40 == r
  {
  }

  /** Decoding a character's encoding, whatever follows it, gives back the character. */
  lemma CharRoundTrip(ch: char, rest: seq<byte>)
    ensures DecodeChar(EncodeChar(ch) + rest) == Some((ch, |EncodeChar(ch)|))
  {
    var c := ch as int;
    if c < 0x80 {
    } else if c < 0x800 {
      CharRoundTrip2(ch, rest);
    } else if c < 0x1_0000 {
      CharRoundTrip3(ch, rest);
    } else {
      CharRoundTrip4(ch, rest);
    }
  }

  lemma CharRoundTrip2(ch: char, rest: seq<byte>)
    requires 0x80 <= ch as int < 0x800
    ensures DecodeChar(EncodeChar(ch) + rest) == Some((ch, 2))
  {
    var c := ch as int;
    var s := EncodeChar(ch) + rest;
    assert s[0] == 0xC0 + c / 0x40 && s[1] == 0x80 + c % 0x40;
  }

  lemma CharRoundTrip3(ch: char, rest: seq<byte>)
    requires 0x800 <= ch as int < 0x1_0000
    ensures DecodeChar(EncodeChar(ch) + rest) == Some((ch, 3))
  {
    var c := ch as int;
    var s := EncodeChar(ch) + rest;
    var m := c / 0x40;
    DivMod64(m, c / 0x1000, m % 0x40);
    assert s[0] == 0xE0 + c / 0x1000 && s[1] == 0x80 + m % 0x40 && s[2] == 0x80 + c % 0x40;
    assert c == (c / 0x1000) * 0x1000 + (m % 0x40) * 0x40 + c % 0x40;
  }

  lemma CharRoundTrip4(ch: char, rest: seq<byte>)
    requires 0x1_0000 <= ch as int
    ensures DecodeChar(EncodeChar(ch) + rest) == Some((ch, 4))
  {
    var c := ch as int;
    var s := EncodeChar(ch) + rest;
    var m := c / 0x40;
    var k := c / 0x1000;
    DivMod64(m, k, m % 0x40);
    DivMod64(k, c / 0x4_0000, k % 0x40);
    assert s[0] == 0xF0 + c / 0x4_0000 && s[1] == 0x80 + k % 0x40;
    assert s[2] == 0x80 + m % 0x40 && s[3] == 0x80 + c % 0x40;
    assert c == (c / 0x4_0000) * 0x4_0000 + (k % 0x40) * 0x1000 + (m % 0x40) * 0x40 + c % 0x40;
  }

  /**
    The decoder accepts only the encoder's output: a decoded character's
    bytes are exactly its encoding (no overlong or alternative forms).
   */
  lemma CharCanonical(s: seq<byte>)
    requires DecodeChar(s).Some?
    ensures s[..DecodeChar(s).value.1] == EncodeChar(DecodeChar(s).value.0)
  {
    var ch := DecodeChar(s).value.0;
    var c := ch as int;
    var b0 := s[0] as int;
    if b0 < 0x80 {
    } else if b0 < 0xE0 {
      DivMod64(c, b0 - 0xC0, s[1] as int - 0x80);
    } else if b0 < 0xF0 {
      DivMod64(c, (b0 - 0xE0) * 0x40 + (s[1] as int - 0x80), s[2] as int - 0x80);
      DivMod64(c / 0x40, b0 - 0xE0, s[1] as int - 0x80);
      assert c / 0x1000 == b0 - 0xE0;
    } else {
      DivMod64(c, (b0 - 0xF0) * 0x1000 + (s[1] as int - 0x80) * 0x40 + (s[2] as int - 0x80), s[3] as int - 0x80);
      DivMod64(c / 0x40, (b0 - 0xF0) * 0x40 + (s[1] as int - 0x80), s[2] as int - 0x80);
      DivMod64(c / 0x1000, b0 - 0xF0, s[1] as int - 0x80);
      assert c / 0x1000 == (b0 - 0xF0) * 0x40 + (s[1] as int - 0x80);
      assert c / 0x4_0000 == b0 - 0xF0;
    }
  }

  // ---------------------------------------------------------------------------
  // Strings
  // ---------------------------------------------------------------------------

  /** Every string survives encoding and decoding unchanged. */
  lemma {:induction false} RoundTrip(text: string)
    ensures Decode(Encode(text)) == Some(text)
  {
    if text != [] {
      var e := EncodeChar(text[0]);
      var rest := Encode(text[1..]);
      CharRoundTrip(text[0], rest);
      assert (e + rest)[|e|..] == rest;
      RoundTrip(text[1..]);
      assert [text[0]] + text[1..] == text;
    }
  }

  /** Decoding succeeds only on well-formed UTF-8, and then re-encoding gives the same bytes. */
  lemma {:induction false} Canonical(s: seq<byte>)
    requires Decode(s).Some?
    ensures Encode(Decode(s).value) == s
    decreases |s|
  {
    if s != [] {
      var ch, n, rest := DecodeStep(s);
      Canonical(s[n..]);
      CanonicalStep(s, ch, n, rest);
    }
  }

  /** The inductive step: the first character's bytes, then the rest's. */
  lemma CanonicalStep(s: seq<byte>, ch: char, n: nat, rest: string)
    requires DecodeChar(s) == Some((ch, n)) && Encode(rest) == s[n..]
    ensures Encode([ch] + rest) == s
  {
    CharCanonical(s);
    EncodeCons(ch, rest);
    assert s == s[..n] + s[n..];
  }

  lemma EncodeCons(ch: char, rest: string)
    ensures Encode([ch] + rest) == EncodeChar(ch) + Encode(rest)
  {
    assert ([ch] + rest)[1..] == rest;
  }

  /** One step of a successful decode: the first character, then the rest. */
  lemma DecodeStep(s: seq<byte>) returns (ch: char, n: nat, rest: string)
    requires s != [] && Decode(s).Some?
    ensures DecodeChar(s) == Some((ch, n)) && 1 <= n <= |s|
    ensures Decode(s[n..]) == Some(rest) && Decode(s).value == [ch] + rest
  {
    ch, n := DecodeChar(s).value.0, DecodeChar(s).value.1;
    rest := Decode(s[n..]).value;
  }
}
