/** Binary RPC frames: a 44-byte header guarded by a checksum, and a payload with its own. */
module RpcBinary {
  import opened Wrappers
  import opened Bytes
  import opened Crc32
  import opened DatalinkFrame

  const RPC_HEADER_SIZE := 44
  const RPC_MAGIC: seq<byte> := [0x41, 0x53, 0x52, 0x50]  // "ASRP", 0x50525341 in little-endian order

  datatype BinaryFrame = BinaryFrame(
    version: u16,
    messageType: u16,
    serviceId: u16,
    methodId: u16,
    payloadType: u16,
    requestId: u32,
    sessionId: u32,
    streamId: u32,
    flags: u32,
    payload: seq<byte>)

  predicate Sendable(f: BinaryFrame) {
    |f.payload| < 0x1_0000_0000
  }

  // ---- the byte layout -------------------------------------------------------------------------

  function Kind(f: BinaryFrame): (r: seq<byte>)
    ensures |r| == 16
  {
    RPC_MAGIC + Le16(f.version) + Le16(RPC_HEADER_SIZE) + Le16(f.messageType) + Le16(f.serviceId)
    + Le16(f.methodId) + Le16(f.payloadType)
  }

  function Marks(f: BinaryFrame, payloadCrc: u32): (r: seq<byte>)
    requires Sendable(f)
    ensures |r| == 24
  {
    Le32(f.requestId) + Le32(f.sessionId) + Le32(f.streamId) + Le32(f.flags) + Le32(|f.payload|) + Le32(payloadCrc)
  }

  function HeadWith(f: BinaryFrame, payloadCrc: u32): (r: seq<byte>)
    requires Sendable(f)
    ensures |r| == 40
  {
    Kind(f) + Marks(f, payloadCrc)
  }

  function BytesWith(f: BinaryFrame, payloadCrc: u32, headerCrc: u32): (r: seq<byte>)
    requires Sendable(f)
    ensures |r| == RPC_HEADER_SIZE + |f.payload|
  {
    HeadWith(f, payloadCrc) + Le32(headerCrc) + f.payload
  }

  /** An empty payload has checksum 0, not the checksum of no bytes. */
  function PayloadCrc(payload: seq<byte>): u32 {
    if payload == [] then 0 else Crc(payload)
  }

  /** encodeBinaryFrame: magic, sizes and checksums are filled in whatever the caller left there. */
  function EncodeBinary(f: BinaryFrame): (r: seq<byte>)
    requires Sendable(f)
    ensures |r| == RPC_HEADER_SIZE + |f.payload|
  {
    BytesWith(f, PayloadCrc(f.payload), Crc(HeadWith(f, PayloadCrc(f.payload)) + NO_CRC))
  }

  function Read(data: seq<byte>): BinaryFrame
    requires |data| >= RPC_HEADER_SIZE
  {
    BinaryFrame(ReadLe16(data, 4), ReadLe16(data, 8), ReadLe16(data, 10), ReadLe16(data, 12), ReadLe16(data, 14),
      ReadLe32(data, 16), ReadLe32(data, 20), ReadLe32(data, 24), ReadLe32(data, 28), data[RPC_HEADER_SIZE..])
  }

  predicate GoodStart(data: seq<byte>)
    requires |data| >= RPC_HEADER_SIZE
  {
    data[..4] == RPC_MAGIC && ReadLe16(data, 6) == RPC_HEADER_SIZE
  }

  /** decodeBinaryFrame. */
  function DecodeBinary(data: seq<byte>): Option<BinaryFrame> {
    if |data| < RPC_HEADER_SIZE || !GoodStart(data) then None
    else if |data| != RPC_HEADER_SIZE + ReadLe32(data, 32) then None
    else if Crc(data[..40] + NO_CRC) != ReadLe32(data, 40) then None
    else if PayloadCrc(data[RPC_HEADER_SIZE..]) != ReadLe32(data, 36) then None
    else Some(Read(data))
  }

  // ---- decoding undoes encoding ----------------------------------------------------------------

  lemma KindPieces(f: BinaryFrame)
    ensures var s := Kind(f);
      s[0..4] == RPC_MAGIC && s[4..6] == Le16(f.version) && s[6..8] == Le16(RPC_HEADER_SIZE)
      && s[8..10] == Le16(f.messageType) && s[10..12] == Le16(f.serviceId)
      && s[12..14] == Le16(f.methodId) && s[14..16] == Le16(f.payloadType)
  {}

  lemma MarksPieces(f: BinaryFrame, payloadCrc: u32)
    requires Sendable(f)
    ensures var s := Marks(f, payloadCrc);
      s[0..4] == Le32(f.requestId) && s[4..8] == Le32(f.sessionId) && s[8..12] == Le32(f.streamId)
      && s[12..16] == Le32(f.flags) && s[16..20] == Le32(|f.payload|) && s[20..24] == Le32(payloadCrc)
  {}

  lemma KindRead(f: BinaryFrame, data: seq<byte>)
    requires |data| >= RPC_HEADER_SIZE && data[0..16] == Kind(f)
    ensures GoodStart(data)
    ensures ReadLe16(data, 4) == f.version && ReadLe16(data, 8) == f.messageType
    ensures ReadLe16(data, 10) == f.serviceId && ReadLe16(data, 12) == f.methodId
    ensures ReadLe16(data, 14) == f.payloadType
  {
    var s := Kind(f);
    KindPieces(f);
    Piece(data, 0, s, 0, 4);
    Piece(data, 0, s, 4, 6);
    Piece(data, 0, s, 6, 8);
    Piece(data, 0, s, 8, 10);
    Piece(data, 0, s, 10, 12);
    Piece(data, 0, s, 12, 14);
    Piece(data, 0, s, 14, 16);
    Le16RoundTrip(data, 4, f.version);
    Le16RoundTrip(data, 6, RPC_HEADER_SIZE);
    Le16RoundTrip(data, 8, f.messageType);
    Le16RoundTrip(data, 10, f.serviceId);
    Le16RoundTrip(data, 12, f.methodId);
    Le16RoundTrip(data, 14, f.payloadType);
  }

  lemma MarksRead(f: BinaryFrame, payloadCrc: u32, data: seq<byte>)
    requires Sendable(f) && |data| >= RPC_HEADER_SIZE && data[16..40] == Marks(f, payloadCrc)
    ensures ReadLe32(data, 16) == f.requestId && ReadLe32(data, 20) == f.sessionId
    ensures ReadLe32(data, 24) == f.streamId && ReadLe32(data, 28) == f.flags
    ensures ReadLe32(data, 32) == |f.payload| && ReadLe32(data, 36) == payloadCrc
  {
    var s := Marks(f, payloadCrc);
    MarksPieces(f, payloadCrc);
    Piece(data, 16, s, 0, 4);
    Piece(data, 16, s, 4, 8);
    Piece(data, 16, s, 8, 12);
    Piece(data, 16, s, 12, 16);
    Piece(data, 16, s, 16, 20);
    Piece(data, 16, s, 20, 24);
    Le32RoundTrip(data, 16, f.requestId);
    Le32RoundTrip(data, 20, f.sessionId);
    Le32RoundTrip(data, 24, f.streamId);
    Le32RoundTrip(data, 28, f.flags);
    Le32RoundTrip(data, 32, |f.payload|);
    Le32RoundTrip(data, 36, payloadCrc);
  }

  /** The header alone, as a reader of a byte stream sees it first, followed by anything. */
  lemma HeaderLayout(f: BinaryFrame, payloadCrc: u32, headerCrc: u32, rest: seq<byte>)
    requires Sendable(f)
    ensures var data := HeadWith(f, payloadCrc) + Le32(headerCrc) + rest;
      data[..40] == HeadWith(f, payloadCrc) && data[0..16] == Kind(f) && data[16..40] == Marks(f, payloadCrc)
      && data[40..44] == Le32(headerCrc) && data[RPC_HEADER_SIZE..] == rest
  {
    var data, h := HeadWith(f, payloadCrc) + Le32(headerCrc) + rest, HeadWith(f, payloadCrc);
    assert data[..40] == h;
    assert h[..16] == Kind(f) && h[16..] == Marks(f, payloadCrc);
    assert data[0..16] == data[..40][..16];
    assert data[16..40] == data[..40][16..];
  }

  lemma DecodeEncodeBinary(f: BinaryFrame)
    requires Sendable(f)
    ensures DecodeBinary(EncodeBinary(f)) == Some(f)
  {
    var payloadCrc := PayloadCrc(f.payload);
    var headerCrc := Crc(HeadWith(f, payloadCrc) + NO_CRC);
    var data := EncodeBinary(f);
    HeaderLayout(f, payloadCrc, headerCrc, f.payload);
    KindRead(f, data);
    MarksRead(f, payloadCrc, data);
    Le32RoundTrip(data, 40, headerCrc);
  }

  /** A decoded frame is found where it is on the wire. */
  lemma WireLayout(d: seq<byte>, f: BinaryFrame)
    requires DecodeBinary(d) == Some(f)
    ensures
      && |d| == 44 + |f.payload| && d[..4] == [0x41, 0x53, 0x52, 0x50]
      && ReadLe16(d, 4) == f.version && ReadLe16(d, 6) == 44
      && ReadLe16(d, 8) == f.messageType && ReadLe16(d, 10) == f.serviceId
      && ReadLe16(d, 12) == f.methodId && ReadLe16(d, 14) == f.payloadType
      && ReadLe32(d, 16) == f.requestId && ReadLe32(d, 20) == f.sessionId
      && ReadLe32(d, 24) == f.streamId && ReadLe32(d, 28) == f.flags
      && ReadLe32(d, 32) == |f.payload|
      && ReadLe32(d, 36) == (if f.payload == [] then 0 else Crc(f.payload))
      && ReadLe32(d, 40) == Crc(d[..40] + [0, 0, 0, 0]) && d[44..] == f.payload
  {}
}
