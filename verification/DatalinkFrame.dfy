/** Datalink frames: a 36-byte header guarded by one checksum, and a payload guarded by another. */
module DatalinkFrame {
  import opened Wrappers
  import opened Bytes
  import opened Crc32

  const HEADER_SIZE := 36
  const MAX_FRAME_SIZE := 1024
  const FLAG_DATA: u16 := 1
  const FLAG_ACK: u16 := 2
  const FLAG_NAK: u16 := 4
  const FLAG_END: u16 := 8
  const MAGIC: seq<byte> := [0x41, 0x53, 0x44, 0x4c]  // "ASDL"
  const VERSION: byte := 1
  const NO_CRC: seq<byte> := [0, 0, 0, 0]

  /** The fields of a frame that the protocol looks at, and its payload. */
  datatype Frame = Frame(
    flags: u16,
    linkSequence: u32,
    transportSize: u32,
    fragmentOffset: u32,
    fragmentIndex: u16,
    fragmentCount: u16,
    payload: seq<byte>)

  /** A payload whose length fits its header field. */
  predicate Encodable(f: Frame) {
    |f.payload| < 0x1_0000_0000
  }

  predicate IsMagic(data: seq<byte>)
    requires |data| >= 4
  {
    data[..4] == MAGIC
  }

  // ---- the byte layout -------------------------------------------------------------------------

  function StartAs(version: byte, f: Frame): (r: seq<byte>)
    ensures |r| == 16
  {
    MAGIC + [version, HEADER_SIZE] + Le16(f.flags) + Le32(f.linkSequence) + Le32(f.transportSize)
  }

  function Start(f: Frame): (r: seq<byte>)
    ensures |r| == 16
  {
    StartAs(VERSION, f)
  }

  function Middle(f: Frame, payloadCrc: u32): (r: seq<byte>)
    requires Encodable(f)
    ensures |r| == 16
  {
    Le32(f.fragmentOffset) + Le32(|f.payload|) + Le16(f.fragmentIndex) + Le16(f.fragmentCount)
    + Le32(payloadCrc)
  }

  /** The header up to its own checksum, with any version byte. */
  function FieldsAs(version: byte, f: Frame, payloadCrc: u32): (r: seq<byte>)
    requires Encodable(f)
    ensures |r| == 32
  {
    StartAs(version, f) + Middle(f, payloadCrc)
  }

  function FieldsWith(f: Frame, payloadCrc: u32): (r: seq<byte>)
    requires Encodable(f)
    ensures |r| == 32
  {
    FieldsAs(VERSION, f, payloadCrc)
  }

  function Fields(f: Frame): (r: seq<byte>)
    requires Encodable(f)
    ensures |r| == 32
  {
    FieldsWith(f, Crc(f.payload))
  }

  function FrameAs(version: byte, f: Frame, payloadCrc: u32, headerCrc: u32): (r: seq<byte>)
    requires Encodable(f)
    ensures |r| == HEADER_SIZE + |f.payload|
  {
    FieldsAs(version, f, payloadCrc) + Le32(headerCrc) + f.payload
  }

  function FrameWith(f: Frame, payloadCrc: u32, headerCrc: u32): (r: seq<byte>)
    requires Encodable(f)
    ensures |r| == HEADER_SIZE + |f.payload|
  {
    FrameAs(VERSION, f, payloadCrc, headerCrc)
  }

  /** The frame an encoder of this version would write. */
  function EncodeAs(version: byte, f: Frame): (r: seq<byte>)
    requires Encodable(f)
    ensures |r| == HEADER_SIZE + |f.payload|
  {
    FrameAs(version, f, Crc(f.payload), Crc(FieldsAs(version, f, Crc(f.payload)) + NO_CRC))
  }

  /** ac_datalink_encode_frame: the header checksum is computed with its own field zero. */
  function Encode(f: Frame): (r: seq<byte>)
    requires Encodable(f)
    ensures |r| == HEADER_SIZE + |f.payload|
  {
    FrameWith(f, Crc(f.payload), Crc(Fields(f) + NO_CRC))
  }

  /** ac_datalink_frame_size: 0 if no frame can be recognised at the start of data. */
  function FrameSize(data: seq<byte>): nat {
    if |data| < HEADER_SIZE || !IsMagic(data) || data[5] != HEADER_SIZE then 0
    else HEADER_SIZE + ReadLe32(data, 20)
  }

  function View(data: seq<byte>): Frame
    requires |data| >= HEADER_SIZE
  {
    Frame(ReadLe16(data, 6), ReadLe32(data, 8), ReadLe32(data, 12), ReadLe32(data, 16),
      ReadLe16(data, 24), ReadLe16(data, 26), data[HEADER_SIZE..])
  }

  /** ac_datalink_decode_frame; the version byte is not looked at. */
  function Decode(data: seq<byte>): Option<Frame> {
    if |data| < HEADER_SIZE || |data| != FrameSize(data) then None
    else if Crc(data[..32] + NO_CRC) != ReadLe32(data, 32) then None
    else if Crc(data[HEADER_SIZE..]) != ReadLe32(data, 28) then None
    else Some(View(data))
  }

  // ---- decoding undoes encoding ----------------------------------------------------------------

  /** The layout holds the version byte and the fields of f. */
  lemma StartLayout(version: byte, f: Frame, data: seq<byte>)
    requires |data| >= 16 && data[..16] == StartAs(version, f)
    ensures data[..4] == MAGIC && data[4] == version && data[5] == HEADER_SIZE
    ensures data[6..8] == Le16(f.flags) && data[8..12] == Le32(f.linkSequence)
    ensures data[12..16] == Le32(f.transportSize)
  {
    var s := StartAs(version, f);
    assert data[..4] == s[..4] && data[6..8] == s[6..8] && data[8..12] == s[8..12] && data[12..16] == s[12..16];
    assert data[4] == s[4] && data[5] == s[5];
  }

  lemma MiddlePieces(f: Frame, payloadCrc: u32)
    requires Encodable(f)
    ensures var m := Middle(f, payloadCrc);
      m[0..4] == Le32(f.fragmentOffset) && m[4..8] == Le32(|f.payload|)
      && m[8..10] == Le16(f.fragmentIndex) && m[10..12] == Le16(f.fragmentCount)
      && m[12..16] == Le32(payloadCrc)
  {}

  lemma MiddleLayout(f: Frame, payloadCrc: u32, data: seq<byte>)
    requires Encodable(f) && |data| >= 32 && data[16..32] == Middle(f, payloadCrc)
    ensures data[16..20] == Le32(f.fragmentOffset) && data[20..24] == Le32(|f.payload|)
    ensures data[24..26] == Le16(f.fragmentIndex) && data[26..28] == Le16(f.fragmentCount)
    ensures data[28..32] == Le32(payloadCrc)
  {
    var m := Middle(f, payloadCrc);
    MiddlePieces(f, payloadCrc);
    Piece(data, 16, m, 0, 4);
    Piece(data, 16, m, 4, 8);
    Piece(data, 16, m, 8, 10);
    Piece(data, 16, m, 10, 12);
    Piece(data, 16, m, 12, 16);
  }

  lemma Layout(version: byte, f: Frame, payloadCrc: u32, headerCrc: u32)
    requires Encodable(f)
    ensures var data := FrameAs(version, f, payloadCrc, headerCrc);
      data[..32] == FieldsAs(version, f, payloadCrc) && data[..16] == StartAs(version, f)
      && data[16..32] == Middle(f, payloadCrc) && data[28..32] == Le32(payloadCrc)
      && data[32..36] == Le32(headerCrc) && data[HEADER_SIZE..] == f.payload
  {
    var data, h := FrameAs(version, f, payloadCrc, headerCrc), FieldsAs(version, f, payloadCrc);
    assert data[..32] == h;
    assert h[..16] == StartAs(version, f) && h[16..] == Middle(f, payloadCrc);
    assert data[..16] == data[..32][..16];
    assert data[16..32] == data[..32][16..];
    MiddleLayout(f, payloadCrc, data);
  }

  lemma ViewOfLayout(version: byte, f: Frame, payloadCrc: u32, data: seq<byte>)
    requires Encodable(f) && |data| == HEADER_SIZE + |f.payload|
    requires data[..16] == StartAs(version, f) && data[16..32] == Middle(f, payloadCrc)
    requires data[HEADER_SIZE..] == f.payload
    ensures View(data) == f && FrameSize(data) == |data| && data[4] == version
    ensures ReadLe32(data, 28) == payloadCrc
  {
    StartLayout(version, f, data);
    MiddleLayout(f, payloadCrc, data);
    Le16RoundTrip(data, 6, f.flags);
    Le32RoundTrip(data, 8, f.linkSequence);
    Le32RoundTrip(data, 12, f.transportSize);
    Le32RoundTrip(data, 16, f.fragmentOffset);
    Le32RoundTrip(data, 20, |f.payload|);
    Le16RoundTrip(data, 24, f.fragmentIndex);
    Le16RoundTrip(data, 26, f.fragmentCount);
    Le32RoundTrip(data, 28, payloadCrc);
  }

  /** The decoder gives back the frame, and does not look at its version. */
  lemma DecodeAnyVersion(version: byte, f: Frame)
    requires Encodable(f)
    ensures Decode(EncodeAs(version, f)) == Some(f) && EncodeAs(version, f)[4] == version
  {
    var data := EncodeAs(version, f);
    var payloadCrc := Crc(f.payload);
    var headerCrc := Crc(FieldsAs(version, f, payloadCrc) + NO_CRC);
    Layout(version, f, payloadCrc, headerCrc);
    ViewOfLayout(version, f, payloadCrc, data);
    Le32RoundTrip(data, 32, headerCrc);
  }

  lemma DecodeEncode(f: Frame)
    requires Encodable(f)
    ensures Decode(Encode(f)) == Some(f)
  {
    DecodeAnyVersion(VERSION, f);
  }

  /** A decoded frame is found where it is on the wire. */
  lemma WireLayout(d: seq<byte>, f: Frame)
    requires Decode(d) == Some(f)
    ensures
      && |d| == 36 + |f.payload| && d[..4] == [0x41, 0x53, 0x44, 0x4c]
      && d[5] == 36 && d[36..] == f.payload
      && ReadLe16(d, 6) == f.flags && ReadLe32(d, 8) == f.linkSequence
      && ReadLe32(d, 12) == f.transportSize && ReadLe32(d, 16) == f.fragmentOffset
      && ReadLe32(d, 20) == |f.payload| && ReadLe16(d, 24) == f.fragmentIndex
      && ReadLe16(d, 26) == f.fragmentCount && ReadLe32(d, 28) == Crc(f.payload)
      && ReadLe32(d, 32) == Crc(d[..32] + [0, 0, 0, 0])
  {}

  // ---- the decoder accepts encodings only ------------------------------------------------------

  /** A header is the layout of its own view and its version byte. */
  lemma FieldsOfView(data: seq<byte>)
    requires |data| >= HEADER_SIZE && |data| == FrameSize(data)
    ensures Encodable(View(data))
    ensures data[..32] == FieldsAs(data[4], View(data), ReadLe32(data, 28))
  {
    var f := View(data);
    assert |f.payload| == ReadLe32(data, 20);
    LeBytes(data);
    assert data[..16] == StartAs(data[4], f) by {
      assert data[..16] == data[..4] + [data[4], data[5]] + data[6..8] + data[8..12] + data[12..16];
    }
    assert data[16..32] == Middle(f, ReadLe32(data, 28)) by {
      assert data[16..32] == data[16..20] + data[20..24] + data[24..26] + data[26..28] + data[28..32];
    }
    assert data[..32] == data[..16] + data[16..32];
  }

  lemma LeBytes(data: seq<byte>)
    requires |data| >= 36
    ensures Le16(ReadLe16(data, 6)) == data[6..8] && Le32(ReadLe32(data, 8)) == data[8..12]
    ensures Le32(ReadLe32(data, 12)) == data[12..16] && Le32(ReadLe32(data, 16)) == data[16..20]
    ensures Le32(ReadLe32(data, 20)) == data[20..24] && Le16(ReadLe16(data, 24)) == data[24..26]
    ensures Le16(ReadLe16(data, 26)) == data[26..28] && Le32(ReadLe32(data, 28)) == data[28..32]
    ensures Le32(ReadLe32(data, 32)) == data[32..36]
  {
    Le16Of(data, 6);
    Le32Of(data, 8);
    Le32Of(data, 12);
    Le32Of(data, 16);
    Le32Of(data, 20);
    Le16Of(data, 24);
    Le16Of(data, 26);
    Le32Of(data, 28);
    Le32Of(data, 32);
  }

  /** What is accepted is the encoding of its view, under its own version byte. */
  lemma AcceptedIsEncoding(data: seq<byte>)
    requires Decode(data).Some?
    ensures Encodable(View(data)) && data == EncodeAs(data[4], View(data))
  {
    FieldsOfView(data);
    LeBytes(data);
    assert data == data[..32] + data[32..36] + data[36..];
  }

  /**
   * Of all byte strings, exactly the encodings under any version byte are accepted, and of these exactly the ones
   * with the current version byte are what the encoder writes.
   */
  lemma DecodeAcceptsEncodings(data: seq<byte>)
    ensures Decode(data).Some? <==> exists version, f :: Encodable(f) && data == EncodeAs(version, f)
    ensures Decode(data).Some? ==> ((exists f :: Encodable(f) && data == Encode(f)) <==> data[4] == VERSION)
  {
    if Decode(data).Some? {
      AcceptedIsEncoding(data);
    }
    forall version, f | Encodable(f) && data == EncodeAs(version, f)
      ensures Decode(data).Some? && data[4] == version
    {
      DecodeAnyVersion(version, f);
    }
    forall f | Encodable(f) && data == Encode(f)
      ensures data[4] == VERSION
    {
      DecodeAnyVersion(VERSION, f);
    }
    if Decode(data).Some? && data[4] == VERSION {
      assert data == Encode(View(data));
    }
  }

  // ---- damage on the wire ----------------------------------------------------------------------

  /** A frame whose payload is damaged inside four consecutive bytes is rejected. */
  lemma DamagedPayloadRejected(f: Frame, before: seq<byte>, sent: seq<byte>, received: seq<byte>, after: seq<byte>)
    requires Encodable(f) && f.payload == before + sent + after
    requires |sent| == |received| <= 4 && sent != received
    ensures Decode(Encode(f)[..HEADER_SIZE] + (before + received + after)) == None
  {
    BurstDetected(before, sent, received, after);
    OtherPayloadRejected(f, before + received + after, Crc(f.payload), Crc(Fields(f) + NO_CRC));
  }

  lemma OtherPayloadRejected(f: Frame, payload: seq<byte>, payloadCrc: u32, headerCrc: u32)
    requires Encodable(f) && |payload| == |f.payload| && Crc(payload) != payloadCrc
    ensures Decode(FrameWith(f, payloadCrc, headerCrc)[..HEADER_SIZE] + payload) == None
  {
    var good := FrameWith(f, payloadCrc, headerCrc);
    var bad := good[..HEADER_SIZE] + payload;
    Layout(VERSION, f, payloadCrc, headerCrc);
    assert bad[28..32] == good[28..32];
    Le32RoundTrip(bad, 28, payloadCrc);
    assert bad[HEADER_SIZE..] == payload;
  }

  /** A frame whose header fields are damaged inside four consecutive bytes is rejected. */
  lemma DamagedFieldsRejected(f: Frame, before: seq<byte>, sent: seq<byte>, received: seq<byte>, after: seq<byte>)
    requires Encodable(f) && Fields(f) == before + sent + after
    requires |sent| == |received| <= 4 && sent != received
    ensures Decode(before + received + after + Encode(f)[32..]) == None
  {
    BurstDetected(before, sent, received, after + NO_CRC);
    Regroup(before + sent, after, NO_CRC);
    Regroup(before + received, after, NO_CRC);
    OtherFieldsRejected(f, before + received + after, Crc(f.payload), Crc(Fields(f) + NO_CRC));
  }

  lemma OtherFieldsRejected(f: Frame, fields: seq<byte>, payloadCrc: u32, headerCrc: u32)
    requires Encodable(f) && |fields| == 32 && Crc(fields + NO_CRC) != headerCrc
    ensures Decode(fields + FrameWith(f, payloadCrc, headerCrc)[32..]) == None
  {
    var good := FrameWith(f, payloadCrc, headerCrc);
    var bad := fields + good[32..];
    Layout(VERSION, f, payloadCrc, headerCrc);
    assert bad[..32] == fields && bad[32..36] == good[32..36];
    Le32RoundTrip(bad, 32, headerCrc);
  }

  // ---- writing a frame into a buffer -----------------------------------------------------------

  function Overwrite(s: seq<byte>, at: nat, field: seq<byte>): (r: seq<byte>)
    requires at + |field| <= |s|
    ensures |r| == |s|
  {
    s[..at] + field + s[at + |field|..]
  }

  /** memcpy of one field into the buffer. */
  method Put(out: array<byte>, at: nat, field: seq<byte>)
    requires at + |field| <= out.Length
    modifies out
    ensures out[..] == Overwrite(old(out[..]), at, field)
    ensures forall k :: at + |field| <= k < out.Length ==> out[k] == old(out[k])
  {
    for k := 0 to |field|
      invariant out[..] == old(out[..at]) + field[..k] + old(out[at + k..])
      invariant forall j :: at + |field| <= j < out.Length ==> out[j] == old(out[j])
    {
      out[at + k] := field[k];
    }
    assert field[..|field|] == field;
  }

  /** Fields written back to back end up side by side, and what lies behind them is unchanged. */
  lemma Adjoin(s: seq<byte>, prefix: seq<byte>, field: seq<byte>)
    requires |prefix| + |field| <= |s| && s[..|prefix|] == prefix
    ensures var r := Overwrite(s, |prefix|, field);
      r[..|prefix| + |field|] == prefix + field && r[|prefix| + |field|..] == s[|prefix| + |field|..]
  {}

  /** The first sixteen bytes. */
  method PutStart(out: array<byte>, f: Frame)
    requires Encodable(f) && out.Length >= HEADER_SIZE
    modifies out
    ensures out[..16] == Start(f) && out[16..] == old(out[16..])
  {
    Put(out, 0, MAGIC);
    Put(out, 4, [VERSION, HEADER_SIZE]);
    Put(out, 6, Le16(f.flags));
    Put(out, 8, Le32(f.linkSequence));
    Put(out, 12, Le32(f.transportSize));
  }

  /** The header fields, written front to back with the header checksum still zero. */
  method PutFields(out: array<byte>, f: Frame, payloadCrc: u32)
    requires Encodable(f) && out.Length >= HEADER_SIZE
    modifies out
    ensures out[..HEADER_SIZE] == FieldsWith(f, payloadCrc) + NO_CRC
    ensures out[HEADER_SIZE..] == old(out[HEADER_SIZE..])
  {
    PutStart(out, f);
    assert out[16..][20..] == out[HEADER_SIZE..];
    assert old(out[16..])[20..] == old(out[HEADER_SIZE..]);
    ghost var s := out[..];
    Put(out, 16, Middle(f, payloadCrc));
    Adjoin(s, Start(f), Middle(f, payloadCrc));
    assert out[..32] == FieldsWith(f, payloadCrc);
    s := out[..];
    Put(out, 32, NO_CRC);
    Adjoin(s, FieldsWith(f, payloadCrc), NO_CRC);
  }

  /** The header checksum is filled in and the payload follows. */
  method PutRest(out: array<byte>, f: Frame, payloadCrc: u32, headerCrc: u32)
    requires Encodable(f) && out.Length >= HEADER_SIZE + |f.payload|
    requires out[..32] == FieldsWith(f, payloadCrc)
    modifies out
    ensures out[..HEADER_SIZE + |f.payload|] == FrameWith(f, payloadCrc, headerCrc)
    ensures out[HEADER_SIZE + |f.payload|..] == old(out[HEADER_SIZE + |f.payload|..])
  {
    ghost var s := out[..];
    Put(out, 32, Le32(headerCrc));
    Adjoin(s, FieldsWith(f, payloadCrc), Le32(headerCrc));
    s := out[..];
    Put(out, HEADER_SIZE, f.payload);
    Adjoin(s, FieldsWith(f, payloadCrc) + Le32(headerCrc), f.payload);
  }

  /** Returns the frame size, or None if the buffer is too small; nothing else is written. */
  method EncodeInto(out: array<byte>, f: Frame) returns (size: Option<nat>)
    requires Encodable(f)
    modifies out
    ensures size == if out.Length < HEADER_SIZE + |f.payload| then None else Some(HEADER_SIZE + |f.payload|)
    ensures size.None? ==> out[..] == old(out[..])
    ensures size.Some? ==> out[..size.value] == Encode(f) && out[size.value..] == old(out[size.value..])
  {
    if out.Length < HEADER_SIZE + |f.payload| {
      return None;
    }
    var payloadCrc := AcCrc32(f.payload);
    PutFields(out, f, payloadCrc);
    var headerCrc := AcCrc32(out[..HEADER_SIZE]);
    assert out[..32] == out[..HEADER_SIZE][..32];
    PutRest(out, f, payloadCrc, headerCrc);
    assert out[HEADER_SIZE + |f.payload|..] == old(out[HEADER_SIZE..])[|f.payload|..];
    size := Some(HEADER_SIZE + |f.payload|);
  }
}
