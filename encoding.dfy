/**
  The binary codec: length-prefixed UTF-8 strings on top of LEB128, an
  `Encoder` that appends values to a growable byte buffer, and a `Decoder`
  that reads them back from a fixed buffer with a read cursor.
 */
module Encoding {
  import opened Base
  import opened Leb128
  import Utf8

  // ---------------------------------------------------------------------------
  // Prefixed strings
  // ---------------------------------------------------------------------------

  /**
    A prefixed string: the unsigned LEB128 byte length of the UTF-8 text, then
    the UTF-8 bytes. The length goes through the 32-bit unsigned check, so a
    text of 2^32 bytes or more is OutOfRange.
   */
  function EncodePrefixedString(text: string): (r: Result<seq<byte>>)
    ensures r.Success? <==> |Utf8.Encode(text)| < TWO_32
    ensures r.Failure? ==> r.error == OutOfRange
  {
    var bytes := Utf8.Encode(text);
    if |bytes| >= TWO_32 then Failure(OutOfRange) else Success(EncodeUnsigned(|bytes|) + bytes)
  }

  /**
    `readPrefixedString` on a static buffer: the length, then exactly that many
    bytes, which must be well-formed UTF-8.
   */
  function DecodePrefixedString(buf: seq<byte>, pos: nat): (r: Result<Decoded<string>>)
    ensures r.Success? ==> pos < r.value.next <= |buf|
  {
    var len :- DecodeUnsigned(buf, pos);
    var start := len.next;
    if start + len.value > |buf| then Failure(Truncated)
    else
      match Utf8.Decode(buf[start..start + len.value])
      case None => Failure(MalformedUtf8)
      case Some(text) => Success(Decoded(text, start + len.value))
  }

  /**
    String round trip: reading a prefixed string, wherever it sits in a
    buffer, gives back the text and moves just past its bytes.
   */
  lemma PrefixedStringRoundTrip(text: string, pre: seq<byte>, post: seq<byte>)
    requires EncodePrefixedString(text).Success?
    ensures var e := EncodePrefixedString(text).value;
      DecodePrefixedString(pre + e + post, |pre|) == Success(Decoded(text, |pre| + |e|))
  {
    var bytes := Utf8.Encode(text);
    var prefix := EncodeUnsigned(|bytes|);
    var e := EncodePrefixedString(text).value;
    assert e == prefix + bytes;
    var buf := pre + e + post;
    assert buf == pre + prefix + (bytes + post);
    UnsignedRoundTrip(|bytes|, pre, bytes + post);
    var start := |pre| + |prefix|;
    assert DecodeUnsigned(buf, |pre|) == Success(Decoded(|bytes|, start));
    assert buf[start..start + |bytes|] == bytes;
    Utf8.RoundTrip(text);
    assert Utf8.Decode(buf[start..start + |bytes|]) == Some(text);
  }

  /**
    The length prefix counts bytes, not characters: it reads back as the
    number of bytes that follow it, which is between one and four per
    character.
   */
  lemma PrefixCountsBytes(text: string)
    requires EncodePrefixedString(text).Success?
    ensures var e := EncodePrefixedString(text).value;
      && DecodeUnsigned(e, 0).Success?
      && DecodeUnsigned(e, 0).value.next + DecodeUnsigned(e, 0).value.value == |e|
      && |text| <= DecodeUnsigned(e, 0).value.value <= 4 * |text|
  {
    var bytes := Utf8.Encode(text);
    UnsignedRoundTrip(|bytes|, [], bytes);
    assert [] + EncodeUnsigned(|bytes|) + bytes == EncodePrefixedString(text).value;
  }

  /**
    `checkEncoded`: whether the bytes an encoder exposes equal the expected
    ones, comparing lengths first and then byte by byte.
   */
  method CheckEncoded(encoded: seq<byte>, expected: seq<byte>) returns (ok: bool)
    ensures ok <==> encoded == expected
  {
    if |encoded| != |expected| {
      return false;
    }
    var i := 0;
    while i < |encoded|
      invariant 0 <= i <= |encoded|
      invariant encoded[..i] == expected[..i]
    {
      if encoded[i] != expected[i] {
        return false;
      }
      i := i + 1;
    }
    assert encoded == encoded[..i] && expected == expected[..i];
    return true;
  }

  // ---------------------------------------------------------------------------
  // Encoder
  // ---------------------------------------------------------------------------

  /** One iteration of the unsigned append loop: a continued group moves from the rest to the output. */
  lemma UnsignedStep(written: seq<byte>, rest: nat)
    requires rest >= 0x80
    ensures written + EncodeUnsigned(rest) == (written + [rest % 0x80 + 0x80]) + EncodeUnsigned(rest / 0x80)
  {
    assert EncodeUnsigned(rest) == [rest % 0x80 + 0x80] + EncodeUnsigned(rest / 0x80);
  }

  /** One iteration of the signed append loop. */
  lemma SignedStep(written: seq<byte>, rest: int)
    requires !SignExtends(rest % 0x80, rest / 0x80)
    ensures written + EncodeSigned(rest) == (written + [rest % 0x80 + 0x80]) + EncodeSigned(rest / 0x80)
  {
    assert EncodeSigned(rest) == [rest % 0x80 + 0x80] + EncodeSigned(rest / 0x80);
  }

  /** One iteration of the group-reading loop: the next byte adds its payload at weight 128^i. */
  lemma GroupsGrow(buf: seq<byte>, pos: nat, i: nat)
    requires pos + i < |buf|
    ensures UValue(buf[pos..pos + i + 1]) == UValue(buf[pos..pos + i]) + Payload(buf[pos + i]) * Pow128(i)
    ensures Pow128(i + 1) == Pow128(i) * 0x80
  {
    var s, b := buf[pos..pos + i], buf[pos + i];
    UValueAppend(s, [b]);
    assert buf[pos..pos + i + 1] == s + [b];
    assert UValue([b]) == Payload(b);
  }

  /** The capacity of a new encoder's buffer. */
  const INITIAL_CAPACITY: nat := 16

  /**
    Appends encoded values to a growable byte buffer. The bytes written so far
    are `buf[..offset]`; the rest of `buf` is spare capacity, never exposed.
   */
  class Encoder {
    var buf: array<byte>
    var offset: nat

    ghost predicate Valid()
      reads this
    {
      offset <= buf.Length
    }

    /** The public view of the buffer: exactly the bytes written so far. */
    ghost function Contents(): seq<byte>
      reads this, buf
      requires Valid()
    {
      buf[..offset]
    }

    constructor ()
      ensures Valid() && fresh(buf) && Contents() == []
    {
      buf := new byte[INITIAL_CAPACITY];
      offset := 0;
    }

    /** `.buffer`: the bytes written so far, and nothing of the spare capacity. */
    method Buffer() returns (bytes: seq<byte>)
      requires Valid()
      ensures bytes == Contents()
    {
      bytes := buf[..offset];
    }

    /** Makes room for `extra` more bytes, moving the written bytes to a larger buffer if needed. */
    method Reserve(extra: nat)
      requires Valid()
      modifies this
      ensures Valid() && Contents() == old(Contents())
      ensures offset + extra <= buf.Length
      ensures buf == old(buf) || fresh(buf)
    {
      if offset + extra > buf.Length {
        var size := 2 * buf.Length + extra;
        var bigger := new byte[size];
        forall k | 0 <= k < offset {
          bigger[k] := buf[k];
        }
        assert bigger[..offset] == buf[..offset];
        buf := bigger;
      }
    }

    /** Appends one byte. */
    method AppendByte(b: byte)
      requires Valid()
      modifies this, buf
      ensures Valid() && Contents() == old(Contents()) + [b]
      ensures buf == old(buf) || fresh(buf)
    {
      Reserve(1);
      buf[offset] := b;
      offset := offset + 1;
    }

    /** Appends raw bytes in order. */
    method AppendRawBytes(data: seq<byte>)
      requires Valid()
      modifies this, buf
      ensures Valid() && Contents() == old(Contents()) + data
      ensures buf == old(buf) || fresh(buf)
    {
      var i := 0;
      while i < |data|
        invariant 0 <= i <= |data|
        invariant Valid() && (buf == old(buf) || fresh(buf))
        invariant Contents() == old(Contents()) + data[..i]
      {
        AppendByte(data[i]);
        assert data[..i + 1] == data[..i] + [data[i]];
        i := i + 1;
      }
      assert data[..i] == data;
    }

    /**
      `appendUint32`: checks that the value is an integer in [0, 2^32) before
      touching the buffer, then appends its unsigned LEB128 encoding. Returns
      the encoder itself, so that calls can be chained.
     */
    method AppendUint32(value: Number) returns (r: Result<Encoder>)
      requires Valid()
      modifies this, buf
      ensures Valid() && (buf == old(buf) || fresh(buf))
      ensures r == if value.NonInteger? then Failure(NotAnInteger)
                   else if !(0 <= value.i < TWO_32) then Failure(OutOfRange)
                   else Success(this)
      ensures Contents() == if r.Success? then old(Contents()) + EncodeUnsigned(value.i) else old(Contents())
    {
      if value.NonInteger? {
        return Failure(NotAnInteger);
      }
      if !(0 <= value.i < TWO_32) {
        return Failure(OutOfRange);
      }
      AppendUnsigned(value.i);
      return Success(this);
    }

    /** Appends the unsigned LEB128 groups of `v`, low group first. */
    method AppendUnsigned(v: nat)
      requires Valid()
      modifies this, buf
      ensures Valid() && (buf == old(buf) || fresh(buf))
      ensures Contents() == old(Contents()) + EncodeUnsigned(v)
    {
      var rest := v;
      ghost var written: seq<byte> := [];
      while rest >= 0x80
        invariant Valid() && (buf == old(buf) || fresh(buf))
        invariant Contents() == old(Contents()) + written
        invariant written + EncodeUnsigned(rest) == EncodeUnsigned(v)
        decreases rest
      {
        var b: byte := rest % 0x80 + 0x80;
        AppendByte(b);
        assert (old(Contents()) + written) + [b] == old(Contents()) + (written + [b]);
        UnsignedStep(written, rest);
        written := written + [b];
        rest := rest / 0x80;
      }
      ghost var before := Contents();
      AppendByte(rest);
      assert before + [rest] == old(Contents()) + (written + EncodeUnsigned(rest));
    }

    /**
      `appendInt32`: checks that the value is an integer in [-2^31, 2^31)
      before touching the buffer, then appends its signed LEB128 encoding.
      Returns the encoder itself, so that calls can be chained.
     */
    method AppendInt32(value: Number) returns (r: Result<Encoder>)
      requires Valid()
      modifies this, buf
      ensures Valid() && (buf == old(buf) || fresh(buf))
      ensures r == if value.NonInteger? then Failure(NotAnInteger)
                   else if !(-TWO_31 <= value.i < TWO_31) then Failure(OutOfRange)
                   else Success(this)
      ensures Contents() == if r.Success? then old(Contents()) + EncodeSigned(value.i) else old(Contents())
    {
      if value.NonInteger? {
        return Failure(NotAnInteger);
      }
      if !(-TWO_31 <= value.i < TWO_31) {
        return Failure(OutOfRange);
      }
      AppendSigned(value.i);
      return Success(this);
    }

    /** Appends the signed LEB128 groups of `v`, stopping at pure sign extension. */
    method AppendSigned(v: int)
      requires Valid()
      modifies this, buf
      ensures Valid() && (buf == old(buf) || fresh(buf))
      ensures Contents() == old(Contents()) + EncodeSigned(v)
    {
      var rest := v;
      ghost var written: seq<byte> := [];
      while !SignExtends(rest % 0x80, rest / 0x80)
        invariant Valid() && (buf == old(buf) || fresh(buf))
        invariant Contents() == old(Contents()) + written
        invariant written + EncodeSigned(rest) == EncodeSigned(v)
        decreases if rest < 0 then -rest else rest
      {
        var b: byte := rest % 0x80 + 0x80;
        AppendByte(b);
        assert (old(Contents()) + written) + [b] == old(Contents()) + (written + [b]);
        SignedStep(written, rest);
        written := written + [b];
        rest := rest / 0x80;
      }
      ghost var before := Contents();
      AppendByte(rest % 0x80);
      assert before + [rest % 0x80] == old(Contents()) + (written + EncodeSigned(rest));
    }

    /**
      `appendPrefixedString`: appends the UTF-8 byte length of `text` through
      the unsigned append, then the UTF-8 bytes.
     */
    method AppendPrefixedString(text: string) returns (r: Result<Encoder>)
      requires Valid()
      modifies this, buf
      ensures Valid() && (buf == old(buf) || fresh(buf))
      ensures r == (match EncodePrefixedString(text)
                    case Success(_) => Success(this)
                    case Failure(e) => Failure(e))
      ensures Contents() == (match EncodePrefixedString(text)
                             case Success(bytes) => old(Contents()) + bytes
                             case Failure(_) => old(Contents()))
    {
      var bytes := Utf8.Encode(text);
      var prefixed := AppendUint32(Int(|bytes|));
      if prefixed.Failure? {
        return Failure(prefixed.error);
      }
      AppendRawBytes(bytes);
      return Success(this);
    }
  }

  // ---------------------------------------------------------------------------
  // Decoder
  // ---------------------------------------------------------------------------

  /**
    Reads values back from a fixed byte buffer, advancing a read cursor. A
    failed read leaves the cursor where it was.
   */
  class Decoder {
    const source: seq<byte>
    var position: nat

    ghost predicate Valid()
      reads this
    {
      position <= |source|
    }

    constructor (buffer: seq<byte>)
      ensures Valid() && source == buffer && position == 0
    {
      source := buffer;
      position := 0;
    }

    /**
      The group-reading loop of both 32-bit readers: accumulates 7-bit groups
      from the cursor on, low group first, while the continuation bit is set.
      Returns the accumulated (unsigned) groups and the number of bytes read,
      or the reason no number can be read. Does not move the cursor.
     */
    method ReadGroups(sign: Signedness) returns (r: Result<(nat, nat)>)
      requires Valid()
      ensures r == match GroupCount(sign, source, position, 0)
                   case Success(n) => Success((UValue(source[position..position + n]), n))
                   case Failure(e) => Failure(e)
    {
      var src, pos := source, position;
      var result: nat := 0;
      var scale: nat := 1;
      var i: nat := 0;
      while pos + i < |src|
        invariant i <= 4 && pos + i <= |src|
        invariant scale == Pow128(i)
        invariant result == UValue(src[pos..pos + i])
        invariant GroupCount(sign, src, pos, 0) == GroupCount(sign, src, pos, i)
        decreases |src| - i
      {
        var b := src[pos + i];
        GroupCountStep(sign, src, pos, i);
        if i == 4 && !FifthGroupFits(sign, b) {
          return Failure(OutOfRange);
        }
        GroupsGrow(src, pos, i);
        result := result + Payload(b) * scale;
        scale := scale * 0x80;
        i := i + 1;
        if b < 0x80 {
          assert GroupCount(sign, src, pos, 0) == Success(i);
          return Success((result, i));
        }
      }
      assert GroupCount(sign, src, pos, 0) == Failure(IncompleteNumber);
      return Failure(IncompleteNumber);
    }

    /** `readUint32`: reads an unsigned 32-bit number and moves past it. */
    method ReadUint32() returns (r: Result<nat>)
      requires Valid()
      modifies this
      ensures Valid()
      ensures match DecodeUnsigned(source, old(position))
              case Success(d) => r == Success(d.value) && position == d.next
              case Failure(e) => r == Failure(e) && position == old(position)
    {
      var groups := ReadGroups(Unsigned);
      match groups
      case Failure(e) =>
        return Failure(e);
      case Success((value, n)) =>
        position := position + n;
        return Success(value);
    }

    /**
      `readInt32`: reads a signed 32-bit number and moves past it; if bit 6 of
      the last group is set, the accumulated groups are sign-extended.
     */
    method ReadInt32() returns (r: Result<int>)
      requires Valid()
      modifies this
      ensures Valid()
      ensures match DecodeSigned(source, old(position))
              case Success(d) => r == Success(d.value) && position == d.next
              case Failure(e) => r == Failure(e) && position == old(position)
    {
      var groups := ReadGroups(Signed);
      match groups
      case Failure(e) =>
        return Failure(e);
      case Success((value, n)) =>
        var last := source[position + n - 1];
        var signed := if Payload(last) >= 0x40 then value - Pow128(n) else value;
        position := position + n;
        return Success(signed);
    }

    /**
      `readPrefixedString`: reads the byte length, then that many bytes, and
      decodes them as UTF-8.
     */
    method ReadPrefixedString() returns (r: Result<string>)
      requires Valid()
      modifies this
      ensures Valid()
      ensures match DecodePrefixedString(source, old(position))
              case Success(d) => r == Success(d.value) && position == d.next
              case Failure(e) => r == Failure(e) && position == old(position)
    {
      var start := position;
      var len := ReadUint32();
      if len.Failure? {
        return Failure(len.error);
      }
      if position + len.value > |source| {
        position := start;
        return Failure(Truncated);
      }
      var bytes := source[position..position + len.value];
      match Utf8.Decode(bytes)
      case None =>
        position := start;
        return Failure(MalformedUtf8);
      case Some(text) =>
        position := position + len.value;
        return Success(text);
    }
  }
}
