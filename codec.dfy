/**
 * The frame header logic of the message codec.  A frame is a 4-byte network-order
 * head length (the bytes after it), a 4-byte network-order type-name length, the
 * type name with its NUL terminator, then the serialized message.  Type names and
 * serialized messages are plain bytes here: the serializer, the parser and the
 * type registry are outside the model, the registry given as a set of names.
 */
module Codec {
  import opened Bytes

  /** kHeadLengthSpace, sizeof(int32_t): the bytes of the head length. */
  const HeadLengthSpace: int := 4

  /** kTypeNameLengthSpace, sizeof(int32_t): the bytes of the type-name length. */
  const TypeNameLengthSpace: int := 4

  /** The bytes in front of the type name. */
  const NameStart: int := HeadLengthSpace + TypeNameLengthSpace

  /** 2^32: 32-bit words are taken modulo it. */
  const Word: int := 0x1_0000_0000

  /** An int32 value. */
  predicate IsInt32(x: int)
  {
    -0x8000_0000 <= x <= IntMax
  }

  /**
   * htonl of the low 32 bits of `x`, as the bytes it leaves in memory: the most
   * significant first (the cast of a size or a length to a 32-bit word wraps).
   */
  function BE32(x: int): (r: seq<uint8>)
    ensures |r| == 4
  {
    var u := x % Word;
    [(u / 0x100_0000) as uint8, (u / 0x1_0000 % 0x100) as uint8, (u / 0x100 % 0x100) as uint8, (u % 0x100) as uint8]
  }

  /** The 32-bit word whose bytes, most significant first, are the first four of `buf`. */
  function Word32(buf: seq<uint8>): (u: int)
    requires |buf| >= 4
    ensures 0 <= u < Word
  {
    buf[0] as int * 0x100_0000 + buf[1] as int * 0x1_0000 + buf[2] as int * 0x100 + buf[3] as int
  }

  /** BufToInt32: the first four bytes of `buf` in network order, as a signed 32-bit value (ntohl). */
  function BufToInt32(buf: seq<uint8>): (r: int)
    requires |buf| >= 4
    ensures IsInt32(r)
    ensures r >= 0 <==> buf[0] < 0x80
  {
    var u := Word32(buf);
    if u > IntMax then u - Word else u
  }

  /** The bytes of a word give the word back. */
  lemma Word32OfBE32(x: int)
    ensures Word32(BE32(x)) == x % Word
  {
    var u := x % Word;
    var a, b3 := u / 0x100, u % 0x100;
    var c, b2 := a / 0x100, a % 0x100;
    var e, b1 := c / 0x100, c % 0x100;
    assert u == c * 0x1_0000 + (b2 * 0x100 + b3);
    DivMod(c, b2 * 0x100 + b3, 0x1_0000);
    assert u == e * 0x100_0000 + (b1 * 0x1_0000 + b2 * 0x100 + b3);
    DivMod(e, b1 * 0x1_0000 + b2 * 0x100 + b3, 0x100_0000);
    var b := BE32(x);
    assert b[0] as int == e && b[1] as int == b1 && b[2] as int == b2 && b[3] as int == b3;
  }

  /** BufToInt32 inverts the htonl packing of an int32 value. */
  lemma BufToInt32OfBE32(x: int)
    requires IsInt32(x)
    ensures BufToInt32(BE32(x)) == x
  {
    Word32OfBE32(x);
  }

  /** Euclidean division by a byte place d of q * d + r, for a remainder 0 <= r < d. */
  lemma DivMod(q: int, r: int, d: int)
    requires d == 0x100 || d == 0x1_0000 || d == 0x100_0000
    requires 0 <= r < d
    ensures (q * d + r) / d == q && (q * d + r) % d == r
  {
    if d == 0x100 {
      assert (q * 0x100 + r) / 0x100 == q;
    } else if d == 0x1_0000 {
      assert (q * 0x1_0000 + r) / 0x1_0000 == q;
    } else {
      assert (q * 0x100_0000 + r) / 0x100_0000 == q;
    }
  }

  /** Every 4 bytes are the packing of the value BufToInt32 reads from them. */
  lemma BE32OfBufToInt32(buf: seq<uint8>)
    requires |buf| == 4
    ensures BE32(BufToInt32(buf)) == buf
  {
    var b0, b1, b2, b3 := buf[0] as int, buf[1] as int, buf[2] as int, buf[3] as int;
    var u := Word32(buf);
    assert BufToInt32(buf) % Word == u;
    DivMod(b0, b1 * 0x1_0000 + b2 * 0x100 + b3, 0x100_0000);
    DivMod(b0 * 0x100 + b1, b2 * 0x100 + b3, 0x1_0000);
    DivMod(b0, b1, 0x100);
    DivMod(b0 * 0x1_0000 + b1 * 0x100 + b2, b3, 0x100);
    DivMod(b0 * 0x100 + b1, b2, 0x100);
    var b := BE32(BufToInt32(buf));
    assert b[0] == buf[0] && b[1] == buf[1] && b[2] == buf[2] && b[3] == buf[3];
  }

  /**
   * The frame of a message with type name `name` and serialization `payload`: the
   * head length |frame| - 4, the type-name length |name| + 1, the name, its NUL,
   * and the serialization.
   */
  function Framed(name: seq<uint8>, payload: seq<uint8>): (r: seq<uint8>)
    ensures |r| == NameStart + |name| + 1 + |payload|
  {
    var body := BE32(|name| + 1) + name + [0] + payload;
    BE32(|body|) + body
  }

  /**
   * Encode: reserve the head length, append the type-name length, the name and its
   * NUL, then the serialization; store the head length over the reserved bytes.  A
   * message that fails to serialize (`payload` None) gives the empty string.
   */
  method Encode(name: seq<uint8>, payload: Option<seq<uint8>>) returns (result: seq<uint8>)
    ensures payload.None? ==> result == []
    ensures payload.Some? ==> result == Framed(name, payload.value)
  {
    result := Zeros(HeadLengthSpace);
    var typeNameLength := |name| + 1;
    result := result + BE32(typeNameLength);
    result := result + name + [0];
    if payload.Some? {
      result := result + payload.value;
      var headLength := BE32(|result| - HeadLengthSpace);
      result := headLength + result[HeadLengthSpace..];
    } else {
      result := [];
    }
  }

  /** What Decode hands to the message parser: the type name it looked up, with its NUL, and the serialization. */
  datatype Frame = Frame(typeName: seq<uint8>, payload: seq<uint8>)

  /** The head length at the front of a frame. */
  function HeadLength(buf: seq<uint8>): int
    requires |buf| >= NameStart
  {
    BufToInt32(buf)
  }

  /** The type-name length after the head length. */
  function NameLength(buf: seq<uint8>): int
    requires |buf| >= NameStart
  {
    BufToInt32(buf[HeadLengthSpace..])
  }

  /** The checks Decode makes, as intended: both lengths, then a type name of a non-negative length, are in `buf`. */
  predicate HoldsName(buf: seq<uint8>)
  {
    |buf| >= NameStart && 0 <= NameLength(buf) && |buf| >= NameLength(buf) + NameStart
  }

  /**
   * What Decode demands of a frame that passes its checks without checking it: a type
   * name the registry knows (the lookup's result is used unchecked), and a head length
   * that puts the serialization after the name and within the buffer.
   */
  predicate DecodeDemands(buf: seq<uint8>, registry: set<seq<uint8>>)
  {
    HoldsName(buf) ==>
      && buf[NameStart..NameStart + NameLength(buf)] in registry
      && NameStart + NameLength(buf) <= HeadLength(buf) + HeadLengthSpace <= |buf|
  }

  /**
   * Decode, up to the parse: no frame for a buffer shorter than the two lengths or
   * than the type name they announce; otherwise the type name, bytes [8, 8 + tnl),
   * and the head_length - 4 - tnl bytes after it.  The size of `buf` is an int32.
   */
  function Decode(buf: seq<uint8>, registry: set<seq<uint8>>): (r: Option<Frame>)
    requires |buf| <= IntMax && DecodeDemands(buf, registry)
    ensures r.Some? <==> HoldsName(buf)
    ensures r.Some? ==>
              && |r.value.typeName| == NameLength(buf) && r.value.typeName in registry
              && |r.value.payload| == HeadLength(buf) - TypeNameLengthSpace - NameLength(buf)
              && buf[..HeadLength(buf) + HeadLengthSpace] == buf[..NameStart] + r.value.typeName + r.value.payload
  {
    if |buf| < HeadLengthSpace + TypeNameLengthSpace then None
    else
      var headLength := BufToInt32(buf);
      var typeNameLength := BufToInt32(buf[HeadLengthSpace..]);
      if typeNameLength < 0 || |buf| < typeNameLength + HeadLengthSpace + TypeNameLengthSpace then None
      else
        var data := NameStart + typeNameLength;
        Some(Frame(buf[NameStart..data], buf[data..data + (headLength - TypeNameLengthSpace - typeNameLength)]))
  }

  /** The head fields of a frame: the lengths Encode stores, read back. */
  lemma {:induction false} FramedHeader(name: seq<uint8>, payload: seq<uint8>)
    requires NameStart + |name| + 1 + |payload| <= IntMax
    ensures HeadLength(Framed(name, payload)) == |Framed(name, payload)| - HeadLengthSpace
    ensures NameLength(Framed(name, payload)) == |name| + 1
    ensures Framed(name, payload)[NameStart..] == name + [0] + payload
  {
    var body := BE32(|name| + 1) + name + [0] + payload;
    var f := Framed(name, payload);
    assert f == BE32(|body|) + body;
    assert f[..4] == BE32(|body|);
    BufToInt32OfBE32(|body|);
    assert f[HeadLengthSpace..][..4] == BE32(|name| + 1);
    BufToInt32OfBE32(|name| + 1);
    assert f[NameStart..] == body[4..];
  }

  /**
   * Decoding an encoded message recovers its NUL-terminated type name and exactly
   * its serialization, when the frame's size is an int32 and the name is registered.
   */
  lemma DecodeEncoded(name: seq<uint8>, payload: seq<uint8>, registry: set<seq<uint8>>)
    requires NameStart + |name| + 1 + |payload| <= IntMax && name + [0] in registry
    ensures DecodeDemands(Framed(name, payload), registry)
    ensures Decode(Framed(name, payload), registry) == Some(Frame(name + [0], payload))
  {
    var f := Framed(name, payload);
    FramedHeader(name, payload);
    var tail := f[NameStart..];
    assert tail[..|name| + 1] == name + [0];
    assert tail[|name| + 1..] == payload;
    assert f[NameStart..NameStart + |name| + 1] == tail[..|name| + 1];
    assert f[NameStart + |name| + 1..|f|] == tail[|name| + 1..];
  }

  /**
   * The payload length head_length - 4 - tnl that Decode hands to the parser
   * (codec.h:96) is a non-negative int32 under DecodeDemands; it is that unchecked
   * demand on the head length, not the type-name check, that keeps the subtraction
   * in range.
   */
  lemma PayloadLengthFits(buf: seq<uint8>, registry: set<seq<uint8>>)
    requires |buf| <= IntMax && DecodeDemands(buf, registry) && HoldsName(buf)
    ensures 0 <= HeadLength(buf) - TypeNameLengthSpace - NameLength(buf) <= IntMax
  {
  }

  /**
   * Without it the subtraction overflows: head bytes 80 00 00 00 read as INT_MIN, a
   * type-name length of 0 passes the type-name check, and head_length - 4 - tnl is
   * below INT_MIN.
   */
  lemma PayloadLengthUnchecked()
    ensures HoldsName([0x80, 0, 0, 0, 0, 0, 0, 0])
    ensures HeadLength([0x80, 0, 0, 0, 0, 0, 0, 0]) - TypeNameLengthSpace - NameLength([0x80, 0, 0, 0, 0, 0, 0, 0]) < -0x8000_0000
  {
    var buf: seq<uint8> := [0x80, 0, 0, 0, 0, 0, 0, 0];
    assert buf[HeadLengthSpace..] == [0, 0, 0, 0];
  }

  /** An int32 sum as the machine leaves it: wrapped to 32 bits and read back signed. */
  function Int32Wrap(x: int): (r: int)
    ensures IsInt32(r) && (r - x) % Word == 0
    ensures IsInt32(x) ==> r == x
  {
    var u := x % Word;
    if u > IntMax then u - Word else u
  }

  /**
   * The type-name check of Decode as the source writes it: the length read is bounded
   * from above only, and the sum tnl + 8 is an int32 that wraps past INT_MAX.
   */
  predicate NameGuardAsWritten(buf: seq<uint8>)
    requires |buf| >= NameStart
  {
    |buf| >= Int32Wrap(NameLength(buf) + HeadLengthSpace + TypeNameLengthSpace)
  }

  /**
   * A type-name length with its top bit set reads as negative and passes the check as
   * written, so Decode slices the name from byte 8 back to byte 8 + tnl < 8; the
   * intended check turns such a buffer away.
   */
  lemma NameGuardAsWrittenAdmitsNegative(buf: seq<uint8>)
    requires |buf| >= NameStart && buf[HeadLengthSpace] >= 0x80
    ensures NameGuardAsWritten(buf) && NameStart + NameLength(buf) < NameStart
    ensures !HoldsName(buf)
  {
    assert buf[HeadLengthSpace..][0] == buf[HeadLengthSpace];
  }

  /**
   * A type-name length within 8 of INT_MAX (bytes 4-7 from 7F FF FF F8 to 7F FF FF FF)
   * makes tnl + 8 wrap negative, so any buffer of at least 8 bytes passes the check
   * as written, and the name range [8, 8 + tnl) runs about 2 GiB past the buffer; the
   * intended check turns such a buffer away.
   */
  lemma NameGuardAsWrittenOverflows(buf: seq<uint8>)
    requires NameStart <= |buf| <= IntMax && NameLength(buf) > IntMax - NameStart
    ensures NameGuardAsWritten(buf) && NameStart + NameLength(buf) > |buf|
    ensures !HoldsName(buf)
  {
    var x := NameLength(buf) + HeadLengthSpace + TypeNameLengthSpace;
    assert IntMax < x < Word;
    assert Int32Wrap(x) == x - Word;
  }

  /** The length 0x7FFFFFFF, the largest such, is one a frame can carry. */
  lemma NameGuardOverflowReachable(buf: seq<uint8>)
    requires NameStart <= |buf| && buf[4..8] == [0x7F, 0xFF, 0xFF, 0xFF]
    ensures NameLength(buf) == IntMax
  {
    assert buf[HeadLengthSpace..][..4] == buf[4..8];
  }
}
