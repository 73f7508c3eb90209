/** Transport frames, and their whole way from a response to the other side's decoder. */
module Transport {
  import opened Wrappers
  import opened Bytes
  import opened Crc32
  import opened DatalinkFrame
  import opened DatalinkPacket
  import opened DatalinkLink

  const TRANSPORT_HEADER_SIZE := 36
  const MAX_PAYLOAD := MAX_PACKET_SIZE - TRANSPORT_HEADER_SIZE
  const TRANSPORT_MAGIC: seq<byte> := [0x41, 0x53, 0x54, 0x4d]  // "ASTM"
  const FLAG_RESPONSE: u32 := 2
  const FLAG_RESPONSE_ACK: u32 := 4

  datatype Message = Message(
    version: u16,
    channelId: u16,
    commandId: u16,
    flags: u32,
    sequenceId: u32,
    sessionId: u32,
    payload: seq<byte>)

  predicate Fits(payload: seq<byte>) {
    |payload| < 0x1_0000_0000
  }

  // ---- the byte layout -------------------------------------------------------------------------

  function Opening(m: Message): (r: seq<byte>)
    ensures |r| == 12
  {
    TRANSPORT_MAGIC + Le16(m.version) + Le16(TRANSPORT_HEADER_SIZE) + Le16(m.channelId) + Le16(m.commandId)
  }

  function Closing(m: Message, payloadCrc: u32): (r: seq<byte>)
    requires Fits(m.payload)
    ensures |r| == 20
  {
    Le32(m.flags) + Le32(m.sequenceId) + Le32(m.sessionId) + Le32(|m.payload|) + Le32(payloadCrc)
  }

  function HeaderWith(m: Message, payloadCrc: u32): (r: seq<byte>)
    requires Fits(m.payload)
    ensures |r| == 32
  {
    Opening(m) + Closing(m, payloadCrc)
  }

  function MessageWith(m: Message, payloadCrc: u32, headerCrc: u32): (r: seq<byte>)
    requires Fits(m.payload)
    ensures |r| == TRANSPORT_HEADER_SIZE + |m.payload|
  {
    HeaderWith(m, payloadCrc) + Le32(headerCrc) + m.payload
  }

  function Pack(m: Message): (r: seq<byte>)
    requires Fits(m.payload)
    ensures |r| == TRANSPORT_HEADER_SIZE + |m.payload|
  {
    MessageWith(m, Crc(m.payload), Crc(HeaderWith(m, Crc(m.payload)) + NO_CRC))
  }

  /** ac_transport_encode into a packet buffer: the answer to a request, with its ids. */
  function Encode(request: Message, flags: u32, payload: seq<byte>): (r: Option<seq<byte>>)
    ensures r.Some? <==> |payload| <= MAX_PAYLOAD
    ensures r.Some? ==> IsPacket(r.value)
  {
    if |payload| > MAX_PAYLOAD then None else Some(Pack(Answering(request, flags, payload)))
  }

  function Answering(request: Message, flags: u32, payload: seq<byte>): Message {
    request.(version := if request.version == 0 then 1 else request.version, flags := flags, payload := payload)
  }

  /** Field by field, what the peer must find in an answer to its request. */
  predicate IsAnswer(request: Message, flags: u32, payload: seq<byte>, answer: Message) {
    && answer.channelId == request.channelId
    && answer.commandId == request.commandId
    && answer.sequenceId == request.sequenceId
    && answer.sessionId == request.sessionId
    && answer.version == (if request.version == 0 then 1 else request.version)
    && answer.flags == flags
    && answer.payload == payload
  }

  /** The bytes decode to an answer to the request. */
  predicate Decoded(data: seq<byte>, request: Message, flags: u32, payload: seq<byte>) {
    Decode(data).Some? && IsAnswer(request, flags, payload, Decode(data).value)
  }

  function Fields(data: seq<byte>): Message
    requires |data| >= TRANSPORT_HEADER_SIZE
  {
    Message(ReadLe16(data, 4), ReadLe16(data, 8), ReadLe16(data, 10), ReadLe32(data, 12), ReadLe32(data, 16),
      ReadLe32(data, 20), data[TRANSPORT_HEADER_SIZE..])
  }

  /** ac_transport_decode. */
  function Decode(data: seq<byte>): Option<Message> {
    if |data| < TRANSPORT_HEADER_SIZE || data[..4] != TRANSPORT_MAGIC then None
    else if ReadLe16(data, 6) != TRANSPORT_HEADER_SIZE then None
    else if |data| != TRANSPORT_HEADER_SIZE + ReadLe32(data, 24) then None
    else if Crc(data[..32] + NO_CRC) != ReadLe32(data, 32) then None
    else if Crc(data[TRANSPORT_HEADER_SIZE..]) != ReadLe32(data, 28) then None
    else Some(Fields(data))
  }

  // ---- decoding undoes encoding ----------------------------------------------------------------

  lemma OpeningLayout(m: Message, data: seq<byte>)
    requires |data| >= 12 && data[..12] == Opening(m)
    ensures data[..4] == TRANSPORT_MAGIC && data[4..6] == Le16(m.version)
    ensures data[6..8] == Le16(TRANSPORT_HEADER_SIZE)
    ensures data[8..10] == Le16(m.channelId) && data[10..12] == Le16(m.commandId)
  {
    var s := Opening(m);
    assert s[..4] == TRANSPORT_MAGIC && s[4..6] == Le16(m.version) && s[6..8] == Le16(TRANSPORT_HEADER_SIZE);
    assert s[8..10] == Le16(m.channelId) && s[10..12] == Le16(m.commandId);
    assert data[..4] == s[..4] && data[4..6] == s[4..6] && data[6..8] == s[6..8];
    assert data[8..10] == s[8..10] && data[10..12] == s[10..12];
  }

  lemma ClosingPieces(m: Message, payloadCrc: u32)
    requires Fits(m.payload)
    ensures var s := Closing(m, payloadCrc);
      s[0..4] == Le32(m.flags) && s[4..8] == Le32(m.sequenceId) && s[8..12] == Le32(m.sessionId)
      && s[12..16] == Le32(|m.payload|) && s[16..20] == Le32(payloadCrc)
  {}

  lemma ClosingLayout(m: Message, payloadCrc: u32, data: seq<byte>)
    requires Fits(m.payload) && |data| >= 32 && data[12..32] == Closing(m, payloadCrc)
    ensures data[12..16] == Le32(m.flags) && data[16..20] == Le32(m.sequenceId)
    ensures data[20..24] == Le32(m.sessionId) && data[24..28] == Le32(|m.payload|)
    ensures data[28..32] == Le32(payloadCrc)
  {
    var s := Closing(m, payloadCrc);
    ClosingPieces(m, payloadCrc);
    Piece(data, 12, s, 0, 4);
    Piece(data, 12, s, 4, 8);
    Piece(data, 12, s, 8, 12);
    Piece(data, 12, s, 12, 16);
    Piece(data, 12, s, 16, 20);
  }

  lemma Layout(m: Message, payloadCrc: u32, headerCrc: u32)
    requires Fits(m.payload)
    ensures var data := MessageWith(m, payloadCrc, headerCrc);
      data[..32] == HeaderWith(m, payloadCrc) && data[..12] == Opening(m) && data[12..32] == Closing(m, payloadCrc)
      && data[32..36] == Le32(headerCrc) && data[TRANSPORT_HEADER_SIZE..] == m.payload
  {
    var data, h := MessageWith(m, payloadCrc, headerCrc), HeaderWith(m, payloadCrc);
    assert data[..32] == h;
    assert h[..12] == Opening(m) && h[12..] == Closing(m, payloadCrc);
    assert data[..12] == data[..32][..12];
    assert data[12..32] == data[..32][12..];
  }

  lemma FieldsOfLayout(m: Message, payloadCrc: u32, data: seq<byte>)
    requires Fits(m.payload) && |data| == TRANSPORT_HEADER_SIZE + |m.payload|
    requires data[..12] == Opening(m) && data[12..32] == Closing(m, payloadCrc)
    requires data[TRANSPORT_HEADER_SIZE..] == m.payload
    ensures Fields(data) == m && data[..4] == TRANSPORT_MAGIC && ReadLe16(data, 6) == TRANSPORT_HEADER_SIZE
    ensures ReadLe32(data, 24) == |m.payload| && ReadLe32(data, 28) == payloadCrc
  {
    OpeningLayout(m, data);
    ClosingLayout(m, payloadCrc, data);
    Le16RoundTrip(data, 4, m.version);
    Le16RoundTrip(data, 6, TRANSPORT_HEADER_SIZE);
    Le16RoundTrip(data, 8, m.channelId);
    Le16RoundTrip(data, 10, m.commandId);
    Le32RoundTrip(data, 12, m.flags);
    Le32RoundTrip(data, 16, m.sequenceId);
    Le32RoundTrip(data, 20, m.sessionId);
    Le32RoundTrip(data, 24, |m.payload|);
    Le32RoundTrip(data, 28, payloadCrc);
  }

  lemma DecodePack(m: Message)
    requires Fits(m.payload)
    ensures Decode(Pack(m)) == Some(m)
  {
    var data := Pack(m);
    var payloadCrc := Crc(m.payload);
    var headerCrc := Crc(HeaderWith(m, payloadCrc) + NO_CRC);
    Layout(m, payloadCrc, headerCrc);
    FieldsOfLayout(m, payloadCrc, data);
    Le32RoundTrip(data, 32, headerCrc);
  }

  /** A decoded frame is found where it is on the wire. */
  lemma WireLayout(d: seq<byte>, m: Message)
    requires Decode(d) == Some(m)
    ensures
      && |d| == 36 + |m.payload| && d[..4] == [0x41, 0x53, 0x54, 0x4d]
      && ReadLe16(d, 4) == m.version && ReadLe16(d, 6) == 36
      && ReadLe16(d, 8) == m.channelId && ReadLe16(d, 10) == m.commandId
      && ReadLe32(d, 12) == m.flags && ReadLe32(d, 16) == m.sequenceId
      && ReadLe32(d, 20) == m.sessionId && ReadLe32(d, 24) == |m.payload|
      && ReadLe32(d, 28) == Crc(m.payload) && ReadLe32(d, 32) == Crc(d[..32] + [0, 0, 0, 0])
      && d[36..] == m.payload
  {}

  lemma EncodeAnswers(request: Message, flags: u32, payload: seq<byte>)
    requires |payload| <= MAX_PAYLOAD
    ensures Decoded(Encode(request, flags, payload).value, request, flags, payload)
  {
    DecodePack(Answering(request, flags, payload));
  }

  // ---- from one side to the other --------------------------------------------------------------

  /** RESPONSE | ACK | extra: bits 1 and 2 are set, the others are those of extra. */
  function ResponseFlags(extra: u32): (r: u32)
    ensures r % 8 / 2 == 3 && r % 2 == extra % 2 && r / 8 == extra / 8
  {
    FlagBits(extra / 8, extra % 2);
    extra / 8 * 8 + FLAG_RESPONSE + FLAG_RESPONSE_ACK + extra % 2
  }

  lemma FlagBits(high: nat, low: nat)
    requires low < 2
    ensures var r := high * 8 + 6 + low; r / 8 == high && r % 8 / 2 == 3 && r % 2 == low
  {
    Eights(high, 6 + low);
    Twos(high * 4 + 3, low);
  }

  lemma Eights(n: nat, rest: nat)
    requires rest < 8
    ensures (n * 8 + rest) / 8 == n && (n * 8 + rest) % 8 == rest
  {}

  lemma Twos(n: nat, rest: nat)
    requires rest < 2
    ensures (n * 2 + rest) % 2 == rest
  {}

  /** The bytes of a packet's fragments on the wire, from the n-th on. */
  function OnWire(q: u32, data: seq<byte>, cap: Capacity, n: nat): seq<seq<byte>>
    requires IsPacket(data) && n <= FragmentCount(|data|, cap)
    decreases FragmentCount(|data|, cap) - n
  {
    if n == FragmentCount(|data|, cap) then []
    else [DatalinkFrame.Encode(Fragment(q, data, cap, n))] + OnWire(q, data, cap, n + 1)
  }

  function DecodeEach(frames: seq<seq<byte>>): seq<Option<Frame>> {
    if frames == [] then [] else [DatalinkFrame.Decode(frames[0])] + DecodeEach(frames[1..])
  }

  lemma {:induction false} WireDecodes(q: u32, data: seq<byte>, cap: Capacity, n: nat)
    requires IsPacket(data) && n <= FragmentCount(|data|, cap)
    ensures DecodeEach(OnWire(q, data, cap, n)) == InFlight(q, data, cap, n)
    decreases FragmentCount(|data|, cap) - n
  {
    if n < FragmentCount(|data|, cap) {
      DecodeEncode(Fragment(q, data, cap, n));
      WireDecodes(q, data, cap, n + 1);
      DecodeFirst(DatalinkFrame.Encode(Fragment(q, data, cap, n)), OnWire(q, data, cap, n + 1));
    }
  }

  lemma DecodeFirst(frame: seq<byte>, more: seq<seq<byte>>)
    ensures DecodeEach([frame] + more) == [DatalinkFrame.Decode(frame)] + DecodeEach(more)
  {
    assert ([frame] + more)[1..] == more;
  }

  predicate AllFit(frames: seq<seq<byte>>, mtu: nat) {
    forall frame <- frames :: |frame| <= mtu
  }

  /** Every frame of a packet fits the MTU that the capacity was computed from. */
  lemma {:induction false} WireFits(q: u32, data: seq<byte>, cap: Capacity, n: nat)
    requires IsPacket(data) && n <= FragmentCount(|data|, cap)
    ensures AllFit(OnWire(q, data, cap, n), HEADER_SIZE + cap)
    decreases FragmentCount(|data|, cap) - n
  {
    if n < FragmentCount(|data|, cap) {
      WireFits(q, data, cap, n + 1);
      FitMore(DatalinkFrame.Encode(Fragment(q, data, cap, n)), OnWire(q, data, cap, n + 1), HEADER_SIZE + cap);
    }
  }

  lemma FitMore(frame: seq<byte>, more: seq<seq<byte>>, mtu: nat)
    requires |frame| <= mtu && AllFit(more, mtu)
    ensures AllFit([frame] + more, mtu)
  {}

  /** A receive call of the idle receiver delivers this packet and leaves the rest of its inbox. */
  predicate Delivers(receiver: Machine, buffer: seq<byte>, q: u32, packet: seq<byte>, rest: seq<Option<Frame>>)
    requires receiver.station.call.Idle? && InboxBounded(receiver.inbox)
  {
    var r := Drive(Listened(receiver, buffer));
    r.inbox == rest && r.station.delivered == receiver.station.delivered + [(q, packet)]
  }

  /** A response of up to 4060 bytes, packed, cut into fragments for any MTU of 37 to 1024, framed, decoded
      frame by frame, reassembled and unpacked, is the same payload with the ids of the request; every frame
      fits the MTU and the fragment count fits its field. */
  lemma EndToEnd(request: Message, extra: u32, payload: seq<byte>, q: u32, cap: Capacity,
    receiver: Machine, buffer: seq<byte>, rest: seq<Option<Frame>>) returns (packet: seq<byte>)
    requires |payload| <= MAX_PAYLOAD && |buffer| >= MAX_PACKET_SIZE
    requires receiver.station.call.Idle? && InboxBounded(receiver.inbox) && receiver.verdicts == []
    ensures Encode(request, ResponseFlags(extra), payload) == Some(packet) && IsPacket(packet)
    ensures FragmentCount(|packet|, cap) <= 0xffff
    ensures AllFit(OnWire(q, packet, cap, 0), HEADER_SIZE + cap)
    ensures receiver.inbox == DecodeEach(OnWire(q, packet, cap, 0)) + rest ==>
      Delivers(receiver, buffer, q, packet, rest)
    ensures Decoded(packet, request, ResponseFlags(extra), payload)
  {
    packet := Encode(request, ResponseFlags(extra), payload).value;
    WireDecodes(q, packet, cap, 0);
    WireFits(q, packet, cap, 0);
    EncodeAnswers(request, ResponseFlags(extra), payload);
    if receiver.inbox == DecodeEach(OnWire(q, packet, cap, 0)) + rest {
      CleanReceive(receiver, q, packet, cap, buffer, rest);
    }
  }

  // ---- writing a message into a packet ---------------------------------------------------------

  /** The header fields, with the header checksum still zero. */
  method PutHeader(out: array<byte>, m: Message, payloadCrc: u32)
    requires Fits(m.payload) && out.Length >= TRANSPORT_HEADER_SIZE
    modifies out
    ensures out[..TRANSPORT_HEADER_SIZE] == HeaderWith(m, payloadCrc) + NO_CRC
    ensures out[TRANSPORT_HEADER_SIZE..] == old(out[TRANSPORT_HEADER_SIZE..])
  {
    Put(out, 0, Opening(m));
    ghost var s := out[..];
    Put(out, 12, Closing(m, payloadCrc));
    Adjoin(s, Opening(m), Closing(m, payloadCrc));
    s := out[..];
    Put(out, 32, NO_CRC);
    Adjoin(s, HeaderWith(m, payloadCrc), NO_CRC);
  }

  /** The header checksum is filled in and the payload follows. */
  method PutRest(out: array<byte>, m: Message, payloadCrc: u32, headerCrc: u32)
    requires Fits(m.payload) && out.Length >= TRANSPORT_HEADER_SIZE + |m.payload|
    requires out[..32] == HeaderWith(m, payloadCrc)
    modifies out
    ensures out[..TRANSPORT_HEADER_SIZE + |m.payload|] == MessageWith(m, payloadCrc, headerCrc)
    ensures out[TRANSPORT_HEADER_SIZE + |m.payload|..] == old(out[TRANSPORT_HEADER_SIZE + |m.payload|..])
  {
    ghost var s := out[..];
    Put(out, 32, Le32(headerCrc));
    Adjoin(s, HeaderWith(m, payloadCrc), Le32(headerCrc));
    s := out[..];
    Put(out, TRANSPORT_HEADER_SIZE, m.payload);
    Adjoin(s, HeaderWith(m, payloadCrc) + Le32(headerCrc), m.payload);
  }

  lemma HeadIs(s: seq<byte>, head: seq<byte>)
    requires |head| == 32 && |s| >= TRANSPORT_HEADER_SIZE && s[..TRANSPORT_HEADER_SIZE] == head + NO_CRC
    ensures s[..32] == head
  {
    assert s[..32] == s[..TRANSPORT_HEADER_SIZE][..32];
  }

  lemma TailsAgree(s: seq<byte>, t: seq<byte>, n: nat, m: nat)
    requires |s| == |t| && n <= m <= |s| && s[n..] == t[n..]
    ensures s[m..] == t[m..]
  {
    assert s[m..] == s[n..][m - n..];
    assert t[m..] == t[n..][m - n..];
  }

  /** Both checksums are computed as the packet is written. */
  method WriteMessage(out: array<byte>, m: Message)
    requires Fits(m.payload) && out.Length >= TRANSPORT_HEADER_SIZE + |m.payload|
    modifies out
    ensures out[..TRANSPORT_HEADER_SIZE + |m.payload|] == Pack(m)
    ensures out[TRANSPORT_HEADER_SIZE + |m.payload|..] == old(out[TRANSPORT_HEADER_SIZE + |m.payload|..])
  {
    var payloadCrc := AcCrc32(m.payload);
    PutHeader(out, m, payloadCrc);
    var headerCrc := AcCrc32(out[..TRANSPORT_HEADER_SIZE]);
    ghost var s := out[..];
    HeadIs(s, HeaderWith(m, payloadCrc));
    PutRest(out, m, payloadCrc, headerCrc);
    TailsAgree(old(out[..]), s, TRANSPORT_HEADER_SIZE, TRANSPORT_HEADER_SIZE + |m.payload|);
  }

  /** ac_transport_encode: refuses what does not fit, and otherwise writes the packet and nothing behind it. */
  method EncodeInto(out: array<byte>, request: Message, flags: u32, payload: seq<byte>) returns (size: Option<nat>)
    modifies out
    ensures size.Some? <==> |payload| <= MAX_PAYLOAD && TRANSPORT_HEADER_SIZE + |payload| <= out.Length
    ensures size.None? ==> out[..] == old(out[..])
    ensures size.Some? ==> size.value <= out.Length && Encode(request, flags, payload) == Some(out[..size.value])
    ensures size.Some? ==> out[size.value..] == old(out[size.value..])
    ensures size.Some? ==> Decoded(out[..size.value], request, flags, payload)
  {
    if |payload| > MAX_PAYLOAD || out.Length < TRANSPORT_HEADER_SIZE + |payload| {
      return None;
    }
    WriteMessage(out, Answering(request, flags, payload));
    EncodeAnswers(request, flags, payload);
    var written := TRANSPORT_HEADER_SIZE + |payload|;
    assert Encode(request, flags, payload).value == out[..written];
    size := Some(written);
  }
}
