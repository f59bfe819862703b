/** The default codec of codec/codec.go: a 15-byte header in big-endian order, then the payload. */
module Codec {
  import opened Wrappers

  const FRAME_HEAD_LEN: nat := 15
  const MAGIC: byte := 0x11
  const VERSION: byte := 0

  type uint16 = i: int | 0 <= i < 0x1_0000
  type uint32 = i: int | 0 <= i < 0x1_0000_0000

  datatype FrameHeader = FrameHeader(
    magic: byte, version: byte, msgType: byte, reqType: byte, compressType: byte,
    streamId: uint16, length: uint32, reserved: uint32)

  // ----- Big-endian integers -----

  function BigEndian16(x: uint16): (b: bytes) {
    [x / 0x100, x % 0x100]
  }

  function BigEndian32(x: uint32): (b: bytes)
    ensures |b| == 4
  {
    BigEndian16(x / 0x1_0000) + BigEndian16(x % 0x1_0000)
  }

  function ReadBigEndian32(b: bytes): (x: uint32)
    requires |b| == 4
  {
    b[0] as int * 0x100_0000 + b[1] as int * 0x1_0000 + b[2] as int * 0x100 + b[3] as int
  }

  /** The bytes of a 32-bit integer, most significant first. */
  lemma BigEndianDigits(x: uint32)
    ensures BigEndian32(x) == [x / 0x100_0000, x / 0x1_0000 % 0x100, x / 0x100 % 0x100, x % 0x100]
  {
    assert x / 0x1_0000 / 0x100 == x / 0x100_0000;
  }

  lemma BigEndianRoundTrip(x: uint32)
    ensures ReadBigEndian32(BigEndian32(x)) == x
  {
    var hi, lo := x / 0x1_0000, x % 0x1_0000;
    assert hi == hi / 0x100 * 0x100 + hi % 0x100;
    assert lo == lo / 0x100 * 0x100 + lo % 0x100;
  }

  // ----- Encode and Decode -----

  /** The header announces the payload's length modulo 2^32, as the code's conversion does. */
  function Encoded(payload: bytes): (frame: bytes)
    ensures |frame| == FRAME_HEAD_LEN + |payload|
  {
    [MAGIC, VERSION, 0, 0, 0, 0, 0] + BigEndian32(|payload| % 0x1_0000_0000) + [0, 0, 0, 0] + payload
  }

  function Decoded(frame: bytes): bytes
    requires FRAME_HEAD_LEN <= |frame|
  {
    frame[FRAME_HEAD_LEN..]
  }

  /** The length a header announces. */
  function AnnouncedLength(head: bytes): uint32
    requires FRAME_HEAD_LEN <= |head|
  {
    ReadBigEndian32(head[7..11])
  }

  method WriteHeader(h: FrameHeader) returns (buffer: bytes)
    ensures buffer == [h.magic, h.version, h.msgType, h.reqType, h.compressType]
                      + BigEndian16(h.streamId) + BigEndian32(h.length) + BigEndian32(h.reserved)
  {
    buffer := [];
    buffer := buffer + [h.magic];
    buffer := buffer + [h.version];
    buffer := buffer + [h.msgType];
    buffer := buffer + [h.reqType];
    buffer := buffer + [h.compressType];
    buffer := buffer + BigEndian16(h.streamId);
    buffer := buffer + BigEndian32(h.length);
    buffer := buffer + BigEndian32(h.reserved);
  }

  method Encode(data: bytes) returns (frame: bytes)
    ensures frame == Encoded(data)
    ensures frame[0] == MAGIC && Decoded(frame) == data
    ensures |data| < 0x1_0000_0000 ==> AnnouncedLength(frame) == |data|
  {
    var header := FrameHeader(MAGIC, VERSION, 0, 0, 0, 0, |data| % 0x1_0000_0000, 0);
    var buffer := WriteHeader(header);
    assert buffer == [MAGIC, VERSION, 0, 0, 0, 0, 0] + BigEndian32(header.length) + [0, 0, 0, 0];
    frame := buffer + data;
    EncodedLayout(data);
  }

  /** Where the parts of an encoded frame lie. */
  lemma EncodedLayout(payload: bytes)
    ensures Encoded(payload)[0] == 0x11
    ensures forall i | 1 <= i < 7 || 11 <= i < 15 :: Encoded(payload)[i] == 0
    ensures AnnouncedLength(Encoded(payload)) == |payload| % 0x1_0000_0000
    ensures Decoded(Encoded(payload)) == payload == Encoded(payload)[15..]
  {
    assert Encoded(payload)[7..11] == BigEndian32(|payload| % 0x1_0000_0000);
    BigEndianRoundTrip(|payload| % 0x1_0000_0000);
  }
}
