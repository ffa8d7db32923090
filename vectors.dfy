/**
  The codec's fixed behaviour on concrete inputs, and clients that use the
  `Encoder` and `Decoder` objects the way the test suite does: encode into a
  fresh encoder, take its buffer, and read it back with a fresh decoder.
 */
module EncodingVectors {
  import opened Base
  import opened Leb128
  import Utf8
  import opened Encoding

  /** Exact unsigned LEB128 bytes of values that fit one or two groups. */
  lemma UnsignedVectorsShort()
    ensures EncodeUnsigned(0x0) == [0x00]
    ensures EncodeUnsigned(0x1) == [0x01]
    ensures EncodeUnsigned(0x42) == [0x42]
    ensures EncodeUnsigned(0x7f) == [0x7f]
    ensures EncodeUnsigned(0x80) == [0x80, 0x01]
    ensures EncodeUnsigned(0xff) == [0xff, 0x01]
    ensures EncodeUnsigned(0x1234) == [0xb4, 0x24]
    ensures EncodeUnsigned(0x3fff) == [0xff, 0x7f]
  {
  }

  /** Exact unsigned LEB128 bytes of values that need three or four groups. */
  lemma UnsignedVectorsMiddle()
    ensures EncodeUnsigned(0x4000) == [0x80, 0x80, 0x01]
    ensures EncodeUnsigned(0x5678) == [0xf8, 0xac, 0x01]
    ensures EncodeUnsigned(0xfffff) == [0xff, 0xff, 0x3f]
    ensures EncodeUnsigned(0x1fffff) == [0xff, 0xff, 0x7f]
    ensures EncodeUnsigned(0x200000) == [0x80, 0x80, 0x80, 0x01]
    ensures EncodeUnsigned(0xfffffff) == [0xff, 0xff, 0xff, 0x7f]
  {
  }

  /** The smallest unsigned value that needs five groups. */
  lemma UnsignedVectorFirstFiveGroup()
    ensures EncodeUnsigned(0x10000000) == [0x80, 0x80, 0x80, 0x80, 0x01]
  {
  }

  /** The largest signed 32-bit value, written unsigned: five groups. */
  lemma UnsignedVectorLargestSigned()
    ensures EncodeUnsigned(0x7fffffff) == [0xff, 0xff, 0xff, 0xff, 0x07]
  {
  }

  /** An unsigned value with bit 31 set. */
  lemma UnsignedVectorTopBitSet()
    ensures EncodeUnsigned(0x87654321) == [0xa1, 0x86, 0x95, 0xbb, 0x08]
  {
  }

  /** The largest unsigned 32-bit value. */
  lemma UnsignedVectorLargest()
    ensures EncodeUnsigned(0xffffffff) == [0xff, 0xff, 0xff, 0xff, 0x0f]
  {
  }

  /** Exact signed LEB128 bytes on both sides of the one- and two-byte boundaries. */
  lemma SignedVectorsShort()
    ensures EncodeSigned(0x0) == [0x00]
    ensures EncodeSigned(0x1) == [0x01]
    ensures EncodeSigned(-0x1) == [0x7f]
    ensures EncodeSigned(0x3f) == [0x3f]
    ensures EncodeSigned(0x40) == [0xc0, 0x00]
    ensures EncodeSigned(-0x3f) == [0x41]
    ensures EncodeSigned(-0x40) == [0x40]
    ensures EncodeSigned(-0x41) == [0xbf, 0x7f]
    ensures EncodeSigned(0x1fff) == [0xff, 0x3f]
    ensures EncodeSigned(0x2000) == [0x80, 0xc0, 0x00]
    ensures EncodeSigned(-0x2000) == [0x80, 0x40]
    ensures EncodeSigned(-0x2001) == [0xff, 0xbf, 0x7f]
  {
  }

  /** Exact signed LEB128 bytes of the largest and smallest three-group values. */
  lemma SignedVectorsThreeGroups()
    ensures EncodeSigned(0xfffff) == [0xff, 0xff, 0x3f]
    ensures EncodeSigned(-0x100000) == [0x80, 0x80, 0x40]
  {
  }

  /** Exact signed LEB128 bytes on both ends of the positive four-group range. */
  lemma SignedVectorsFourGroupsPositive()
    ensures EncodeSigned(0x100000) == [0x80, 0x80, 0xc0, 0x00]
    ensures EncodeSigned(0x7ffffff) == [0xff, 0xff, 0xff, 0x3f]
  {
  }

  /** Exact signed LEB128 bytes on both ends of the negative four-group range. */
  lemma SignedVectorsFourGroupsNegative()
    ensures EncodeSigned(-0x100001) == [0xff, 0xff, 0xbf, 0x7f]
    ensures EncodeSigned(-0x8000000) == [0x80, 0x80, 0x80, 0x40]
  {
  }

  /** The smallest positive signed value that needs five groups. */
  lemma SignedVectorFirstFiveGroupPositive()
    ensures EncodeSigned(0x8000000) == [0x80, 0x80, 0x80, 0xc0, 0x00]
  {
  }

  /** The largest negative signed value that needs five groups. */
  lemma SignedVectorFirstFiveGroupNegative()
    ensures EncodeSigned(-0x8000001) == [0xff, 0xff, 0xff, 0xbf, 0x7f]
  {
  }

  /** A positive five-group signed value. */
  lemma SignedVectorPositive()
    ensures EncodeSigned(0x76543210) == [0x90, 0xe4, 0xd0, 0xb2, 0x07]
  {
  }

  /** A negative five-group signed value. */
  lemma SignedVectorNegative()
    ensures EncodeSigned(-0x76543210) == [0xf0, 0x9b, 0xaf, 0xcd, 0x78]
  {
  }

  /** The largest signed 32-bit value. */
  lemma SignedVectorLargest()
    ensures EncodeSigned(0x7fffffff) == [0xff, 0xff, 0xff, 0xff, 0x07]
  {
  }

  /** The smallest signed 32-bit value. */
  lemma SignedVectorSmallest()
    ensures EncodeSigned(-0x80000000) == [0x80, 0x80, 0x80, 0x80, 0x78]
  {
  }

  /** Malformed and overlong numbers the readers reject, and with which error. */
  lemma DecoderRejectionVectors()
    ensures DecodeUnsigned([0x80, 0x80, 0x80, 0x80, 0x80, 0x00], 0) == Failure(OutOfRange)
    ensures DecodeSigned([0x80, 0x80, 0x80, 0x80, 0x80, 0x00], 0) == Failure(OutOfRange)
    ensures DecodeUnsigned([0x80, 0x80, 0x80, 0x80, 0x10], 0) == Failure(OutOfRange)
    ensures DecodeSigned([0x80, 0x80, 0x80, 0x80, 0x08], 0) == Failure(OutOfRange)
    ensures DecodeSigned([0xff, 0xff, 0xff, 0xff, 0x77], 0) == Failure(OutOfRange)
    ensures DecodeUnsigned([0x80, 0x80], 0) == Failure(IncompleteNumber)
    ensures DecodeSigned([0x80, 0x80], 0) == Failure(IncompleteNumber)
  {
    GroupCountExact(Unsigned, [0x80, 0x80, 0x80, 0x80, 0x80, 0x00], 0, 0);
    GroupCountExact(Signed, [0x80, 0x80, 0x80, 0x80, 0x80, 0x00], 0, 0);
    GroupCountExact(Unsigned, [0x80, 0x80, 0x80, 0x80, 0x10], 0, 0);
    GroupCountExact(Signed, [0x80, 0x80, 0x80, 0x80, 0x08], 0, 0);
    GroupCountExact(Signed, [0xff, 0xff, 0xff, 0xff, 0x77], 0, 0);
    GroupCountExact(Unsigned, [0x80, 0x80], 0, 0);
    GroupCountExact(Signed, [0x80, 0x80], 0, 0);
  }

  /** Prefixed strings of ASCII text: the prefix is the character count. */
  lemma AsciiStringVectors()
    ensures EncodePrefixedString("") == Success([0])
    ensures EncodePrefixedString("a") == Success([1, 0x61])
  {
    assert Utf8.Encode("") == [] && EncodeUnsigned(0) + [] == [0];
    assert Utf8.Encode("a") == [0x61] && EncodeUnsigned(1) + [0x61] == [1, 0x61];
  }

  /** The UTF-8 bytes of a text with two-byte characters: two bytes for each `à`. */
  lemma AccentedUtf8Bytes()
    ensures Utf8.Encode("Oh là là") == [79, 104, 32, 108, 195, 160, 32, 108, 195, 160]
  {
    assert Utf8.EncodeChar('à') == [195, 160];
  }

  /** A prefixed string with two-byte characters: the prefix is the UTF-8 byte count, not the character count. */
  lemma AccentedStringVector()
    ensures EncodePrefixedString("Oh là là") == Success([10, 79, 104, 32, 108, 195, 160, 32, 108, 195, 160])
  {
    AccentedUtf8Bytes();
    var oh: seq<byte> := [79, 104, 32, 108, 195, 160, 32, 108, 195, 160];
    assert EncodeUnsigned(10) == [10];
    assert [10] + oh == [10, 79, 104, 32, 108, 195, 160, 32, 108, 195, 160];
  }

  /** A prefixed string of one character outside the Basic Multilingual Plane: four bytes. */
  lemma AstralStringVector()
    ensures EncodePrefixedString("\U{1F604}") == Success([4, 0xf0, 0x9f, 0x98, 0x84])
  {
    var smiley: seq<byte> := [0xf0, 0x9f, 0x98, 0x84];
    assert Utf8.Encode("\U{1F604}") == smiley && EncodeUnsigned(4) + smiley == [4] + smiley;
    assert [4] + smiley == [4, 0xf0, 0x9f, 0x98, 0x84];
  }

  /**
    Each out-of-range or non-integral argument, appended to a fresh encoder,
    is rejected with its error kind and leaves the buffer empty. The inputs
    are, in order: 2^32, 2^53 - 1, -1, -2^31, -Infinity, NaN and pi for the
    unsigned append, then 2^31, 2^53 - 1, -2^31 - 1, -Infinity, NaN and pi for
    the signed append.
   */
  method AppendRejections() returns (errors: seq<Error>)
    ensures errors == [OutOfRange, OutOfRange, OutOfRange, OutOfRange,
                       NotAnInteger, NotAnInteger, NotAnInteger,
                       OutOfRange, OutOfRange, OutOfRange,
                       NotAnInteger, NotAnInteger, NotAnInteger]
  {
    var maxSafe := 0x1F_FFFF_FFFF_FFFF;
    var unsignedInputs := [Int(0x1_0000_0000), Int(maxSafe), Int(-1), Int(-0x8000_0000),
                           NonInteger, NonInteger, NonInteger];
    var signedInputs := [Int(0x8000_0000), Int(maxSafe), Int(-0x8000_0001),
                         NonInteger, NonInteger, NonInteger];
    errors := [];
    for k := 0 to |unsignedInputs|
      invariant |errors| == k
      invariant forall j :: 0 <= j < k ==> errors[j] == (if j < 4 then OutOfRange else NotAnInteger)
    {
      var e := new Encoder();
      var r := e.AppendUint32(unsignedInputs[k]);
      errors := errors + [r.error];
    }
    for k := 0 to |signedInputs|
      invariant |errors| == 7 + k
      invariant forall j :: 0 <= j < 7 ==> errors[j] == (if j < 4 then OutOfRange else NotAnInteger)
      invariant forall j :: 7 <= j < 7 + k ==> errors[j] == (if j < 10 then OutOfRange else NotAnInteger)
    {
      var e := new Encoder();
      var r := e.AppendInt32(signedInputs[k]);
      errors := errors + [r.error];
    }
  }

  /**
    `new Decoder(new Encoder().appendUint32(v).buffer).readUint32()` gives back
    `v` for every 32-bit unsigned value.
   */
  method UnsignedObjectRoundTrip(v: nat) returns (r: Result<nat>)
    requires v < TWO_32
    ensures r == Success(v)
  {
    var e := new Encoder();
    var _ := e.AppendUint32(Int(v));
    var bytes := e.Buffer();
    var d := new Decoder(bytes);
    UnsignedRoundTrip(v, [], []);
    assert [] + EncodeUnsigned(v) + [] == bytes;
    r := d.ReadUint32();
  }

  /**
    `new Decoder(new Encoder().appendInt32(v).buffer).readInt32()` gives back
    `v` for every 32-bit signed value.
   */
  method SignedObjectRoundTrip(v: int) returns (r: Result<int>)
    requires -TWO_31 <= v < TWO_31
    ensures r == Success(v)
  {
    var e := new Encoder();
    var _ := e.AppendInt32(Int(v));
    var bytes := e.Buffer();
    var d := new Decoder(bytes);
    SignedRoundTrip(v, [], []);
    assert [] + EncodeSigned(v) + [] == bytes;
    r := d.ReadInt32();
  }

  /**
    `new Decoder(new Encoder().appendPrefixedString(text).buffer).readPrefixedString()`
    gives back `text` for every text whose UTF-8 form is shorter than 2^32 bytes.
   */
  method StringObjectRoundTrip(text: string) returns (r: Result<string>)
    requires |Utf8.Encode(text)| < TWO_32
    ensures r == Success(text)
  {
    var e := new Encoder();
    var _ := e.AppendPrefixedString(text);
    var bytes := e.Buffer();
    var d := new Decoder(bytes);
    PrefixedStringRoundTrip(text, [], []);
    assert [] + EncodePrefixedString(text).value + [] == bytes;
    r := d.ReadPrefixedString();
  }
}
