/**
  Reference definitions of 32-bit LEB128, the variable-length integer encoding
  of section 7.6 of the DWARF 4 standard ("Variable Length Data"): the bytes
  the encoder emits, the values and lengths the decoder accepts, and the
  properties that tie the two together.

  A number is written as groups of 7 bits, low group first. Bit 7 of every
  byte but the last is set (the continuation bit). An unsigned number stops
  when nothing is left; a signed number stops when the remaining bits are the
  sign extension of bit 6 of the last group.
 */
module Leb128 {
  import opened Base

  /** The 7 payload bits of a byte. */
  function Payload(b: byte): (p: nat)
    ensures p < 0x80
  {
    b % 0x80
  }

  /** Setting the continuation bit leaves the payload unchanged. */
  lemma ContinuedPayload(low: int)
    requires 0 <= low < 0x80
    ensures Payload(low + 0x80) == low
  {
  }

  /** A complete group sequence: the continuation bit is set on every byte but the last. */
  predicate Groups(s: seq<byte>) {
    && |s| > 0
    && (forall j :: 0 <= j < |s| - 1 ==> s[j] >= 0x80)
    && s[|s| - 1] < 0x80
  }

  /** The unsigned number the groups of `s` stand for, low group first. */
  function UValue(s: seq<byte>): nat {
    if s == [] then 0 else Payload(s[0]) + 0x80 * UValue(s[1..])
  }

  /** The signed number: the groups sign-extended from bit 6 of the last group. */
  function SValue(s: seq<byte>): int {
    if s == [] then 0
    else UValue(s) - (if Payload(s[|s| - 1]) >= 0x40 then Pow128(|s|) else 0)
  }

  // ---------------------------------------------------------------------------
  // Encoding
  // ---------------------------------------------------------------------------

  /**
    Unsigned LEB128: emit the low 7 bits with the continuation bit while more
    than 7 bits remain, then the last group without it.
   */
  function EncodeUnsigned(v: nat): (r: seq<byte>)
    ensures |r| >= 1
    decreases v
  {
    if v < 0x80 then [v] else [v % 0x80 + 0x80] + EncodeUnsigned(v / 0x80)
  }

  /**
    The unsigned encoding is a complete group sequence (bit 7 set on every
    byte but the last) whose groups, low first, stand for `v`.
   */
  lemma {:induction false} EncodeUnsignedGroups(v: nat)
    ensures Groups(EncodeUnsigned(v)) && UValue(EncodeUnsigned(v)) == v
    decreases v
  {
    if v >= 0x80 {
      var t := EncodeUnsigned(v / 0x80);
      EncodeUnsignedGroups(v / 0x80);
      ConsGroups(v % 0x80 + 0x80, t);
      ContinuedPayload(v % 0x80);
      assert ([v % 0x80 + 0x80] + t)[1..] == t;
    }
  }

  /**
    True when `rest`, what is left after taking the group `low`, is nothing but
    the sign extension of bit 6 of `low`.
   */
  predicate SignExtends(low: int, rest: int) {
    (rest == 0 && low < 0x40) || (rest == -1 && low >= 0x40)
  }

  /**
    Signed LEB128: emit the low 7 bits and shift right arithmetically (Dafny's
    `/` and `%` by a positive divisor are floor division and its non-negative
    remainder, exactly an arithmetic shift and a mask on two's complement);
    stop once the rest is the sign extension of the group just emitted.
   */
  function EncodeSigned(v: int): (r: seq<byte>)
    ensures |r| >= 1
    decreases if v < 0 then -v else v
  {
    if SignExtends(v % 0x80, v / 0x80) then [v % 0x80]
    else [v % 0x80 + 0x80] + EncodeSigned(v / 0x80)
  }

  /**
    The signed encoding is a complete group sequence whose groups,
    sign-extended from bit 6 of the last one, stand for `v`.
   */
  lemma {:induction false} EncodeSignedGroups(v: int)
    ensures Groups(EncodeSigned(v)) && SValue(EncodeSigned(v)) == v
    decreases if v < 0 then -v else v
  {
    if SignExtends(v % 0x80, v / 0x80) {
      SValueSingle(v % 0x80);
    } else {
      ShiftShrinks(v);
      EncodeSignedGroups(v / 0x80);
      SignedConsStep(v);
    }
  }

  /** The inductive step: a continued group in front of the encoding of v / 128. */
  lemma SignedConsStep(v: int)
    requires !SignExtends(v % 0x80, v / 0x80)
    requires Groups(EncodeSigned(v / 0x80)) && SValue(EncodeSigned(v / 0x80)) == v / 0x80
    ensures Groups(EncodeSigned(v)) && SValue(EncodeSigned(v)) == v
  {
    var b: byte := v % 0x80 + 0x80;
    var t := EncodeSigned(v / 0x80);
    assert EncodeSigned(v) == [b] + t;
    SValueCons(b, t);
    ConsGroups(b, t);
    ContinuedPayload(v % 0x80);
  }

  /** Shifting out a group that is not the last one brings the value closer to 0. */
  lemma ShiftShrinks(v: int)
    requires !SignExtends(v % 0x80, v / 0x80)
    ensures (if v / 0x80 < 0 then -(v / 0x80) else v / 0x80) < (if v < 0 then -v else v)
  {
  }

  /** A continued byte in front of a complete group sequence keeps it complete. */
  lemma ConsGroups(b: byte, t: seq<byte>)
    requires b >= 0x80 && Groups(t)
    ensures Groups([b] + t)
  {
    var r := [b] + t;
    forall j | 1 <= j < |r| - 1 ensures r[j] >= 0x80 {
      assert r[j] == t[j - 1];
    }
  }

  lemma SValueSingle(b: byte)
    ensures SValue([b]) == if Payload(b) >= 0x40 then Payload(b) - 0x80 else Payload(b)
  {
    assert [b][1..] == [];
    assert UValue([b]) == Payload(b);
    assert Pow128(1) == 0x80;
  }

  lemma SValueCons(b: byte, t: seq<byte>)
    requires t != []
    ensures SValue([b] + t) == Payload(b) + 0x80 * SValue(t)
  {
    var s := [b] + t;
    assert s[1..] == t;
    assert s[|s| - 1] == t[|t| - 1];
  }

  // ---------------------------------------------------------------------------
  // Arithmetic on group sequences
  // ---------------------------------------------------------------------------

  /** The groups of a concatenation: the second part's weight starts at 128^|s|. */
  lemma {:induction false} UValueAppend(s: seq<byte>, t: seq<byte>)
    ensures UValue(s + t) == UValue(s) + Pow128(|s|) * UValue(t)
  {
    if s != [] {
      assert (s + t)[1..] == s[1..] + t;
      UValueAppend(s[1..], t);
      var a, p, u := UValue(s[1..]), Pow128(|s| - 1), UValue(t);
      assert UValue(s + t) == Payload(s[0]) + 0x80 * (a + p * u);
      assert Pow128(|s|) == 0x80 * p;
      ShiftDistributes(a, p, u);
    } else {
      assert s + t == t;
    }
  }

  lemma ShiftDistributes(a: int, p: int, u: int)
    ensures 0x80 * (a + p * u) == 0x80 * a + (0x80 * p) * u
  {
  }

  /** n groups hold fewer than 128^n values. */
  lemma {:induction false} UValueBound(s: seq<byte>)
    ensures UValue(s) < Pow128(|s|)
  {
    if s != [] {
      UValueBound(s[1..]);
    }
  }

  // ---------------------------------------------------------------------------
  // Minimality
  // ---------------------------------------------------------------------------

  /**
    No complete group sequence for `v` is shorter than the encoder's output:
    the unsigned encoding has the fewest bytes.
   */
  lemma {:induction false} UnsignedShortest(v: nat, s: seq<byte>)
    requires Groups(s) && UValue(s) == v
    ensures |EncodeUnsigned(v)| <= |s|
  {
    if |s| > 1 && v >= 0x80 {
      assert Groups(s[1..]) by {
        forall j | 0 <= j < |s[1..]| - 1 ensures s[1..][j] >= 0x80 {
          assert s[1..][j] == s[j + 1];
        }
      }
      assert v / 0x80 == UValue(s[1..]);
      UnsignedShortest(v / 0x80, s[1..]);
    }
  }

  /** Likewise for signed: no complete group sequence with signed value `v` is shorter. */
  lemma {:induction false} SignedShortest(v: int, s: seq<byte>)
    requires Groups(s) && SValue(s) == v
    ensures |EncodeSigned(v)| <= |s|
    decreases |s|
  {
    if |s| == 1 {
      assert s == [s[0]];
      SValueSingle(s[0]);
      SignExtendsRange(v);
    } else if !SignExtends(v % 0x80, v / 0x80) {
      var t := s[1..];
      assert s == [s[0]] + t;
      SValueCons(s[0], t);
      assert Groups(t) by {
        forall j | 0 <= j < |t| - 1 ensures t[j] >= 0x80 {
          assert t[j] == s[j + 1];
        }
      }
      assert v / 0x80 == SValue(t);
      SignedShortest(v / 0x80, t);
    }
  }

  /** The unsigned encoding has at most n bytes exactly when v < 128^n. */
  lemma {:induction false} UnsignedLength(v: nat, n: nat)
    requires n >= 1
    ensures |EncodeUnsigned(v)| <= n <==> v < Pow128(n)
  {
    if n > 1 && v >= 0x80 {
      UnsignedLength(v / 0x80, n - 1);
    } else if n > 1 {
      PowGrows(n);
    }
  }

  lemma {:induction false} PowGrows(n: nat)
    requires n >= 1
    ensures Pow128(n) >= 0x80
  {
    if n > 1 {
      PowGrows(n - 1);
    }
  }

  /**
    The signed encoding has at most n bytes exactly when v lies in
    [-64 * 128^(n-1), 64 * 128^(n-1)).
   */
  lemma {:induction false} SignedLength(v: int, n: nat)
    requires n >= 1
    ensures |EncodeSigned(v)| <= n <==> -0x40 * Pow128(n - 1) <= v < 0x40 * Pow128(n - 1)
    decreases n
  {
    SignExtendsRange(v);
    if n > 1 {
      PowGrows(n - 1);
      if !SignExtends(v % 0x80, v / 0x80) {
        SignedLength(v / 0x80, n - 1);
        assert Pow128(n - 1) == 0x80 * Pow128(n - 2);
        FloorDivRange(v, 0x40 * Pow128(n - 2));
      }
    }
  }

  /** The sign-extension stop rule holds after one group exactly for v in [-64, 64). */
  lemma SignExtendsRange(v: int)
    ensures SignExtends(v % 0x80, v / 0x80) <==> -0x40 <= v < 0x40
  {
  }

  lemma FloorDivRange(v: int, k: int)
    requires k > 0
    ensures -k <= v / 0x80 < k <==> -0x80 * k <= v < 0x80 * k
  {
    var q, r := v / 0x80, v % 0x80;
    assert v == 0x80 * q + r && 0 <= r < 0x80;
  }

  /**
    The unsigned length steps from 1 to 5 bytes exactly at 2^7, 2^14, 2^21
    and 2^28, and a 32-bit value never takes more than 5 bytes.
   */
  lemma UnsignedLengthSteps(v: nat)
    requires v < TWO_32
    ensures |EncodeUnsigned(v)| ==
      if v < 0x80 then 1
      else if v < 0x4000 then 2
      else if v < 0x20_0000 then 3
      else if v < 0x1000_0000 then 4
      else 5
  {
    assert Pow128(4) == 0x1000_0000;
    UnsignedLength(v, 1);
    UnsignedLength(v, 2);
    UnsignedLength(v, 3);
    UnsignedLength(v, 4);
    UnsignedLength(v, 5);
  }

  /**
    The signed length steps at +-2^6, +-2^13, +-2^20 and +-2^27, and a 32-bit
    signed value never takes more than 5 bytes.
   */
  lemma SignedLengthSteps(v: int)
    requires -TWO_31 <= v < TWO_31
    ensures |EncodeSigned(v)| ==
      if -0x40 <= v < 0x40 then 1
      else if -0x2000 <= v < 0x2000 then 2
      else if -0x10_0000 <= v < 0x10_0000 then 3
      else if -0x800_0000 <= v < 0x800_0000 then 4
      else 5
  {
    assert Pow128(4) == 0x1000_0000;
    SignedLength(v, 1);
    SignedLength(v, 2);
    SignedLength(v, 3);
    SignedLength(v, 4);
    SignedLength(v, 5);
  }

  // ---------------------------------------------------------------------------
  // Decoding
  // ---------------------------------------------------------------------------

  datatype Signedness = Unsigned | Signed

  /**
    Whether a byte may stand as the fifth group of a 32-bit number. Unsigned:
    its payload, shifted by 28, must stay below bit 32 (and the continuation
    bit must be clear, since a sixth group cannot fit). Signed: bits 31 to 34
    must all equal the sign, so the payload is 0x00-0x07 or 0x78-0x7f.
   */
  predicate FifthGroupFits(sign: Signedness, b: byte) {
    match sign
    case Unsigned => b < 0x10
    case Signed => b < 0x08 || 0x78 <= b < 0x80
  }

  /**
    The state machine of both 32-bit readers: in state `i` it looks at the
    byte `pos + i`. The result is the number of bytes of the number, or the
    reason none can be read.
   */
  function GroupCount(sign: Signedness, buf: seq<byte>, pos: nat, i: nat): (r: Result<nat>)
    requires i <= 4
    ensures r.Success? ==> i < r.value <= 5 && pos + r.value <= |buf|
    decreases 4 - i
  {
    if pos + i >= |buf| then Failure(IncompleteNumber)
    else if i == 4 && !FifthGroupFits(sign, buf[pos + 4]) then Failure(OutOfRange)
    else if buf[pos + i] < 0x80 then Success(i + 1)
    else GroupCount(sign, buf, pos, i + 1)
  }

  /** One transition of the reader's state machine, on a byte that is present. */
  lemma GroupCountStep(sign: Signedness, buf: seq<byte>, pos: nat, i: nat)
    requires i <= 4 && pos + i < |buf|
    ensures i == 4 && !FifthGroupFits(sign, buf[pos + 4]) ==> GroupCount(sign, buf, pos, i) == Failure(OutOfRange)
    ensures !(i == 4 && !FifthGroupFits(sign, buf[pos + 4])) && buf[pos + i] < 0x80 ==>
              GroupCount(sign, buf, pos, i) == Success(i + 1)
    ensures !(i == 4 && !FifthGroupFits(sign, buf[pos + 4])) && buf[pos + i] >= 0x80 ==>
              i < 4 && GroupCount(sign, buf, pos, i) == GroupCount(sign, buf, pos, i + 1)
  {
  }

  /** A decoded value and the position just after it. */
  datatype Decoded<+T> = Decoded(value: T, next: nat)

  /** `readUint32` on a static buffer starting at `pos`. */
  function DecodeUnsigned(buf: seq<byte>, pos: nat): (r: Result<Decoded<nat>>)
    ensures r.Success? ==> r.value.value < TWO_32 && pos < r.value.next <= pos + 5
    ensures r.Success? ==> r.value.next <= |buf|
  {
    match GroupCount(Unsigned, buf, pos, 0)
    case Failure(e) => Failure(e)
    case Success(n) =>
      var s := buf[pos..pos + n];
      GroupCountExact(Unsigned, buf, pos, n);
      UnsignedDecodedFits(buf, pos, n);
      Success(Decoded(UValue(s), pos + n))
  }

  /** `readInt32` on a static buffer starting at `pos`. */
  function DecodeSigned(buf: seq<byte>, pos: nat): (r: Result<Decoded<int>>)
    ensures r.Success? ==> -TWO_31 <= r.value.value < TWO_31 && pos < r.value.next <= pos + 5
    ensures r.Success? ==> r.value.next <= |buf|
  {
    match GroupCount(Signed, buf, pos, 0)
    case Failure(e) => Failure(e)
    case Success(n) =>
      var s := buf[pos..pos + n];
      GroupCountExact(Signed, buf, pos, n);
      SignedDecodedFits(buf, pos, n);
      Success(Decoded(SValue(s), pos + n))
  }

  /** Bytes pos .. pos+k-1 exist and all carry the continuation bit. */
  predicate ContinuedFor(buf: seq<byte>, pos: nat, k: nat) {
    forall j :: pos <= j < pos + k ==> j < |buf| && buf[j] >= 0x80
  }

  /** The byte sequences on which the reader succeeds with `n` bytes. */
  predicate Accepts(sign: Signedness, buf: seq<byte>, pos: nat, n: nat) {
    && 1 <= n <= 5
    && pos + n <= |buf|
    && ContinuedFor(buf, pos, n - 1)
    && buf[pos + n - 1] < 0x80
    && (n == 5 ==> FifthGroupFits(sign, buf[pos + 4]))
  }

  /** The accepted bytes, taken on their own, are a complete group sequence. */
  lemma AcceptsGroups(sign: Signedness, buf: seq<byte>, pos: nat, n: nat)
    requires Accepts(sign, buf, pos, n)
    ensures Groups(buf[pos..pos + n])
  {
    var s := buf[pos..pos + n];
    forall j | 0 <= j < n - 1 ensures s[j] >= 0x80 {
      assert s[j] == buf[pos + j];
    }
  }

  /** The byte sequences on which the reader fails with OutOfRange. */
  predicate Overflows(sign: Signedness, buf: seq<byte>, pos: nat) {
    ContinuedFor(buf, pos, 4) && pos + 4 < |buf| && !FifthGroupFits(sign, buf[pos + 4])
  }

  /** The byte sequences on which the reader fails with IncompleteNumber. */
  predicate EndsMidNumber(buf: seq<byte>, pos: nat) {
    |buf| <= pos + 4 && forall j :: pos <= j < |buf| ==> buf[j] >= 0x80
  }

  lemma {:induction false} GroupCountFrom(sign: Signedness, buf: seq<byte>, pos: nat, i: nat, n: nat)
    requires i <= 4 && ContinuedFor(buf, pos, i)
    ensures GroupCount(sign, buf, pos, i) == Success(n) <==> i < n && Accepts(sign, buf, pos, n)
    ensures GroupCount(sign, buf, pos, i) == Failure(OutOfRange) <==> Overflows(sign, buf, pos)
    ensures GroupCount(sign, buf, pos, i) == Failure(IncompleteNumber) <==> EndsMidNumber(buf, pos)
    decreases 4 - i
  {
    if pos + i >= |buf| || (i == 4 && !FifthGroupFits(sign, buf[pos + 4])) {
    } else if buf[pos + i] < 0x80 {
    } else {
      GroupCountFrom(sign, buf, pos, i + 1, n);
    }
  }

  /**
    Exactly what the 32-bit readers accept and reject, for both signednesses:
    success with n bytes when bytes pos .. pos+n-1 form a complete group
    sequence of at most 5 bytes whose fifth byte (if any) fits; OutOfRange when
    four continued bytes are followed by a fifth that does not fit; and
    IncompleteNumber when the buffer ends before a byte without the
    continuation bit (and before a fifth byte).
   */
  lemma GroupCountExact(sign: Signedness, buf: seq<byte>, pos: nat, n: nat)
    ensures GroupCount(sign, buf, pos, 0) == Success(n) <==> Accepts(sign, buf, pos, n)
    ensures GroupCount(sign, buf, pos, 0) == Failure(OutOfRange) <==> Overflows(sign, buf, pos)
    ensures GroupCount(sign, buf, pos, 0) == Failure(IncompleteNumber) <==> EndsMidNumber(buf, pos)
  {
    GroupCountFrom(sign, buf, pos, 0, n);
  }

  /** An accepted unsigned number is below 2^32. */
  lemma UnsignedDecodedFits(buf: seq<byte>, pos: nat, n: nat)
    requires Accepts(Unsigned, buf, pos, n)
    ensures UValue(buf[pos..pos + n]) < TWO_32
  {
    var s := buf[pos..pos + n];
    if n < 5 {
      UValueBound(s);
      assert Pow128(4) == 0x1000_0000;
      PowMonotone(n, 4);
    } else {
      FifthGroupSplit(s);
      assert s[4] == buf[pos + 4];
    }
  }

  /** An accepted signed number lies in [-2^31, 2^31). */
  lemma SignedDecodedFits(buf: seq<byte>, pos: nat, n: nat)
    requires Accepts(Signed, buf, pos, n)
    ensures -TWO_31 <= SValue(buf[pos..pos + n]) < TWO_31
  {
    var s := buf[pos..pos + n];
    if n < 5 {
      UValueBound(s);
      assert Pow128(4) == 0x1000_0000;
      PowMonotone(n, 4);
    } else {
      FifthGroupSplit(s);
      assert s[4] == buf[pos + 4];
    }
  }

  lemma {:induction false} PowMonotone(m: nat, n: nat)
    requires m <= n
    ensures Pow128(m) <= Pow128(n)
  {
    if m < n {
      PowMonotone(m, n - 1);
    }
  }

  /** A five-group value is its low 28 bits plus the fifth payload shifted by 28. */
  lemma FifthGroupSplit(s: seq<byte>)
    requires |s| == 5
    ensures UValue(s[..4]) < 0x1000_0000
    ensures UValue(s) == UValue(s[..4]) + 0x1000_0000 * Payload(s[4])
    ensures SValue(s) == UValue(s) - (if Payload(s[4]) >= 0x40 then 0x8_0000_0000 else 0)
  {
    assert s == s[..4] + [s[4]];
    UValueAppend(s[..4], [s[4]]);
    UValueBound(s[..4]);
    assert Pow128(4) == 0x1000_0000;
    assert Pow128(5) == 0x8_0000_0000;
    assert UValue([s[4]]) == Payload(s[4]);
  }

  // ---------------------------------------------------------------------------
  // Round trips
  // ---------------------------------------------------------------------------

  /** A group sequence placed anywhere in a buffer is read back from its start. */
  lemma EmbeddedAccepts(sign: Signedness, pre: seq<byte>, s: seq<byte>, post: seq<byte>)
    requires Groups(s) && |s| <= 5
    requires |s| == 5 ==> FifthGroupFits(sign, s[4])
    ensures (pre + s + post)[|pre|..|pre| + |s|] == s
    ensures GroupCount(sign, pre + s + post, |pre|, 0) == Success(|s|)
  {
    var buf := pre + s + post;
    assert buf[|pre|..|pre| + |s|] == s;
    forall j | |pre| <= j < |pre| + |s| ensures buf[j] == s[j - |pre|] {
    }
    GroupCountExact(sign, buf, |pre|, |s|);
  }

  /** The fifth byte of an unsigned 32-bit encoding has payload below 0x10. */
  lemma UnsignedFifthFits(v: nat)
    requires v < TWO_32 && |EncodeUnsigned(v)| == 5
    ensures FifthGroupFits(Unsigned, EncodeUnsigned(v)[4])
  {
    EncodeUnsignedGroups(v);
    FifthGroupSplit(EncodeUnsigned(v));
  }

  /** The fifth byte of a signed 32-bit encoding is 0x00-0x07 or 0x78-0x7f. */
  lemma SignedFifthFits(v: int)
    requires -TWO_31 <= v < TWO_31 && |EncodeSigned(v)| == 5
    ensures FifthGroupFits(Signed, EncodeSigned(v)[4])
  {
    EncodeSignedGroups(v);
    FifthGroupSplit(EncodeSigned(v));
  }

  /**
    Unsigned round trip: reading the encoding of any 32-bit value, wherever it
    sits in a buffer, yields the value and moves just past the encoding.
   */
  lemma UnsignedRoundTrip(v: nat, pre: seq<byte>, post: seq<byte>)
    requires v < TWO_32
    ensures DecodeUnsigned(pre + EncodeUnsigned(v) + post, |pre|)
         == Success(Decoded(v, |pre| + |EncodeUnsigned(v)|))
  {
    var e := EncodeUnsigned(v);
    EncodeUnsignedGroups(v);
    UnsignedLengthSteps(v);
    if |e| == 5 {
      UnsignedFifthFits(v);
    }
    EmbeddedAccepts(Unsigned, pre, e, post);
  }

  /**
    Signed round trip: reading the encoding of any 32-bit signed value,
    wherever it sits in a buffer, yields the value and moves just past it.
   */
  lemma SignedRoundTrip(v: int, pre: seq<byte>, post: seq<byte>)
    requires -TWO_31 <= v < TWO_31
    ensures DecodeSigned(pre + EncodeSigned(v) + post, |pre|)
         == Success(Decoded(v, |pre| + |EncodeSigned(v)|))
  {
    var e := EncodeSigned(v);
    EncodeSignedGroups(v);
    SignedLengthSteps(v);
    if |e| == 5 {
      SignedFifthFits(v);
    }
    EmbeddedAccepts(Signed, pre, e, post);
  }

  /**
    The unsigned reader also accepts padded (non-minimal) encodings; whatever
    it reads is never shorter than what the encoder emits for the same value.
   */
  lemma UnsignedDecodedNotShorter(buf: seq<byte>, pos: nat)
    requires DecodeUnsigned(buf, pos).Success?
    ensures |EncodeUnsigned(DecodeUnsigned(buf, pos).value.value)| <= DecodeUnsigned(buf, pos).value.next - pos
  {
    var n := GroupCount(Unsigned, buf, pos, 0).value;
    GroupCountExact(Unsigned, buf, pos, n);
    AcceptsGroups(Unsigned, buf, pos, n);
    UnsignedShortest(UValue(buf[pos..pos + n]), buf[pos..pos + n]);
  }

  /** Likewise for the signed reader. */
  lemma SignedDecodedNotShorter(buf: seq<byte>, pos: nat)
    requires DecodeSigned(buf, pos).Success?
    ensures |EncodeSigned(DecodeSigned(buf, pos).value.value)| <= DecodeSigned(buf, pos).value.next - pos
  {
    var n := GroupCount(Signed, buf, pos, 0).value;
    GroupCountExact(Signed, buf, pos, n);
    AcceptsGroups(Signed, buf, pos, n);
    SignedShortest(SValue(buf[pos..pos + n]), buf[pos..pos + n]);
  }
}
