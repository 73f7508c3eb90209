/** What the RPC readers accept: exactly the bytes of a message, of either framing, whatever stands behind it. */
module RpcExact {
  import opened Wrappers
  import opened Bytes
  import opened Crc32
  import opened DatalinkFrame
  import opened Json
  import opened JsonTree
  import opened RpcBinary
  import opened RpcFraming
  import JsonGrammar

  // ---- binary frames -----------------------------------------------------------------------------

  lemma KindFrom(d: seq<byte>)
    requires |d| >= RPC_HEADER_SIZE && GoodStart(d)
    ensures d[0..16] == Kind(RpcBinary.Read(d))
  {
    Le16Of(d, 4);
    Le16Of(d, 6);
    Le16Of(d, 8);
    Le16Of(d, 10);
    Le16Of(d, 12);
    Le16Of(d, 14);
    assert d[0..16] == d[..4] + d[4..6] + d[6..8] + d[8..10] + d[10..12] + d[12..14] + d[14..16];
  }

  lemma MarksFrom(d: seq<byte>)
    requires |d| >= RPC_HEADER_SIZE && |d| == RPC_HEADER_SIZE + ReadLe32(d, 32)
    ensures d[16..40] == Marks(RpcBinary.Read(d), ReadLe32(d, 36))
  {
    Le32Of(d, 16);
    Le32Of(d, 20);
    Le32Of(d, 24);
    Le32Of(d, 28);
    Le32Of(d, 32);
    Le32Of(d, 36);
    assert d[16..40] == d[16..20] + d[20..24] + d[24..28] + d[28..32] + d[32..36] + d[36..40];
  }

  lemma HeadFrom(d: seq<byte>)
    requires |d| >= RPC_HEADER_SIZE && GoodStart(d) && |d| == RPC_HEADER_SIZE + ReadLe32(d, 32)
    ensures d == BytesWith(RpcBinary.Read(d), ReadLe32(d, 36), ReadLe32(d, 40))
    ensures d[..40] == HeadWith(RpcBinary.Read(d), ReadLe32(d, 36))
  {
    KindFrom(d);
    MarksFrom(d);
    Le32Of(d, 40);
    assert d[..40] == d[0..16] + d[16..40];
    assert d == d[..40] + d[40..44] + d[44..];
  }

  lemma DecodedIsEncoded(d: seq<byte>)
    requires DecodeBinary(d).Some?
    ensures Sendable(RpcBinary.Read(d)) && d == EncodeBinary(RpcBinary.Read(d))
  {
    HeadFrom(d);
  }

  /** Exactly the encoding of a frame is decoded to it. */
  lemma DecodesExactly(d: seq<byte>, f: BinaryFrame)
    ensures DecodeBinary(d) == Some(f) <==> Sendable(f) && d == EncodeBinary(f)
  {
    if DecodeBinary(d).Some? {
      DecodedIsEncoded(d);
    }
    if Sendable(f) && d == EncodeBinary(f) {
      DecodeEncodeBinary(f);
    }
  }

  /** A frame whose payload is damaged within four bytes is refused. */
  lemma DamageRefused(f: BinaryFrame, before: seq<byte>, sent: seq<byte>, received: seq<byte>, after: seq<byte>)
    requires Sendable(f) && f.payload == before + sent + after
    requires |sent| == |received| <= 4 && sent != received
    ensures DecodeBinary(EncodeBinary(f)[..RPC_HEADER_SIZE] + (before + received + after)).None?
  {
    var payloadCrc := PayloadCrc(f.payload);
    var headerCrc := Crc(HeadWith(f, payloadCrc) + NO_CRC);
    var d := EncodeBinary(f)[..RPC_HEADER_SIZE] + (before + received + after);
    assert d == HeadWith(f, payloadCrc) + Le32(headerCrc) + (before + received + after);
    HeaderLayout(f, payloadCrc, headerCrc, before + received + after);
    MarksRead(f, payloadCrc, d);
    BurstDetected(before, sent, received, after);
  }

  /** So is one whose header is damaged within four bytes in front of its checksum, whatever size it announces now. */
  lemma HeaderDamageRefused(f: BinaryFrame, before: seq<byte>, sent: seq<byte>, received: seq<byte>, after: seq<byte>)
    requires Sendable(f) && HeadWith(f, PayloadCrc(f.payload)) == before + sent + after
    requires |sent| == |received| <= 4 && sent != received
    ensures DecodeBinary(before + received + after + EncodeBinary(f)[40..]).None?
  {
    var head := HeadWith(f, PayloadCrc(f.payload));
    var headerCrc := Crc(head + NO_CRC);
    var d := before + received + after + EncodeBinary(f)[40..];
    HeaderLayout(f, PayloadCrc(f.payload), headerCrc, f.payload);
    BurstDetected(before, sent, received, after + NO_CRC);
    Regroup(before + sent, after, NO_CRC);
    Regroup(before + received, after, NO_CRC);
    assert |before + received + after| == 40;
    assert d[..40] == before + received + after && d[40..44] == EncodeBinary(f)[40..44];
    Le32RoundTrip(d, 40, headerCrc);
  }

  predicate IsBinary(s: seq<byte>, f: BinaryFrame, rest: seq<byte>, limit: nat) {
    |f.payload| <= limit && Sendable(f) && s == EncodeBinary(f) + rest
  }

  /** What the reader hands to the decoder. */
  lemma BinaryParts(s: seq<byte>, limit: nat)
    requires ReadBinary(s, limit).Done?
    ensures var size := RPC_HEADER_SIZE + ReadLe32(s, 32);
      size <= |s| && size <= RPC_HEADER_SIZE + limit && s == s[..size] + s[size..]
      && DecodeBinary(s[..size]) == Some(ReadBinary(s, limit).value) && ReadBinary(s, limit).rest == s[size..]
  {
    var size := RPC_HEADER_SIZE + ReadLe32(s, 32);
    assert s == s[..size] + s[size..];
  }

  lemma BinaryFrom(s: seq<byte>, f: BinaryFrame, rest: seq<byte>, limit: nat)
    requires ReadBinary(s, limit) == Done(f, rest)
    ensures IsBinary(s, f, rest, limit)
  {
    BinaryParts(s, limit);
    DecodesExactly(s[..RPC_HEADER_SIZE + ReadLe32(s, 32)], f);
  }

  /** The binary reader takes the encoding of a frame within the limit, and nothing else. */
  lemma BinaryExactly(s: seq<byte>, f: BinaryFrame, rest: seq<byte>)
    ensures ReadBinary(s, MAX_BINARY) == Done(f, rest) <==> IsBinary(s, f, rest, MAX_BINARY)
  {
    if ReadBinary(s, MAX_BINARY) == Done(f, rest) {
      BinaryFrom(s, f, rest, MAX_BINARY);
    }
    if IsBinary(s, f, rest, MAX_BINARY) {
      BinaryBack(f, rest);
    }
  }

  // ---- content behind its length -----------------------------------------------------------------

  /** The header has the key, for the first time there, then white space and digits of this value, all digits there. */
  ghost predicate Announced(header: seq<byte>, at: nat, gap: seq<byte>, digits: seq<byte>, after: seq<byte>, n: nat) {
    at <= |header| && header[at..] == KEY + (gap + (digits + after))
    && (forall k | 0 <= k < at :: !At(header, KEY, k))
    && JsonGrammar.Blank(gap) && digits != [] && AllDigits(digits) && (after == [] || !IsDigit(after[0]))
    && DecimalValue(digits) == n < 0x1_0000_0000_0000_0000
  }

  ghost predicate Announces(header: seq<byte>, n: nat) {
    exists at, gap, digits, after :: Announced(header, at, gap, digits, after, n)
  }

  lemma AnnouncedIsRead(header: seq<byte>, at: nat, gap: seq<byte>, digits: seq<byte>, after: seq<byte>, n: nat)
    requires Announced(header, at, gap, digits, after, n)
    ensures ParseContentLength(header) == Some(n)
  {
    var t := digits + after;
    assert header[at..][..|KEY|] == KEY;
    assert header[at..at + |KEY|] == header[at..][..|KEY|];
    FindFirst(header, KEY, 0, at);
    assert header[at + |KEY|..] == header[at..][|KEY|..] == gap + t;
    JsonGrammar.BlankSkipped(gap, t);
    assert t[0] == digits[0];
    SpanOfDigits(digits, after);
    assert t[..|digits|] == digits;
  }

  lemma DigitsAnnounced(header: seq<byte>, at: nat, gap: seq<byte>, t: seq<byte>)
    requires at <= |header| && header[at..] == KEY + (gap + t) && JsonGrammar.Blank(gap) && DigitSpan(t) > 0
    requires forall k | 0 <= k < at :: !At(header, KEY, k)
    requires DecimalValue(t[..DigitSpan(t)]) < 0x1_0000_0000_0000_0000
    ensures Announces(header, DecimalValue(t[..DigitSpan(t)]))
  {
    var digits, after := t[..DigitSpan(t)], t[DigitSpan(t)..];
    assert t == digits + after;
    assert Announced(header, at, gap, digits, after, DecimalValue(digits));
  }

  lemma ReadIsAnnounced(header: seq<byte>, n: nat)
    requires ParseContentLength(header) == Some(n)
    ensures Announces(header, n)
  {
    var at := Find(header, KEY, 0).value;
    var behind := header[at + |KEY|..];
    var gap := JsonGrammar.SkipFrom(behind);
    var t := SkipSpace(behind);
    assert header[at..] == header[at..at + |KEY|] + behind;
    DigitsAnnounced(header, at, gap, t);
  }

  /** The length is taken from the digits behind the first key. */
  lemma LengthExactly(header: seq<byte>, n: nat)
    ensures ParseContentLength(header) == Some(n) <==> Announces(header, n)
  {
    if ParseContentLength(header) == Some(n) {
      ReadIsAnnounced(header, n);
    }
    if Announces(header, n) {
      var at, gap, digits, after :| Announced(header, at, gap, digits, after, n);
      AnnouncedIsRead(header, at, gap, digits, after, n);
    }
  }

  /** A header ends with its first blank line, and is not too long. */
  ghost predicate IsHeader(h: seq<byte>) {
    4 <= |h| <= MAX_HEADER && At(h, END, |h| - 4) && forall k | 0 <= k < |h| - 4 :: !At(h, END, k)
  }

  lemma NotYet(s: seq<byte>, h: seq<byte>, n: nat)
    requires IsHeader(h) && n < |h| <= |s| && s[..|h|] == h
    ensures Find(s[..n], END, 0).None?
  {
    forall k | 0 <= k
      ensures !At(s[..n], END, k)
    {
      if At(s[..n], END, k) {
        assert h[k..k + 4] == s[..n][k..k + 4];
        assert At(h, END, k);
      }
    }
  }

  lemma {:induction false} HeaderFound(s: seq<byte>, h: seq<byte>, n: nat)
    requires IsHeader(h) && n <= |h| <= |s| && s[..|h|] == h
    ensures HeaderLength(s, n) == Some(|h|)
    decreases |h| - n
  {
    if n < |h| {
      NotYet(s, h, n);
      HeaderFound(s, h, n + 1);
    }
  }

  lemma {:induction false} HeaderFrom(s: seq<byte>, n: nat)
    requires n <= |s| && n <= MAX_HEADER && HeaderLength(s, n).Some?
    requires n <= 4 || Find(s[..n - 1], END, 0).None?
    ensures IsHeader(s[..HeaderLength(s, n).value])
    decreases |s| - n
  {
    var h := s[..n];
    if Find(h, END, 0).Some? {
      var at := Find(h, END, 0).value;
      if at + 4 < n {
        assert s[..n - 1][at..at + 4] == h[at..at + 4];
        assert At(s[..n - 1], END, at);
      }
    } else {
      HeaderFrom(s, n + 1);
    }
  }

  /** A header that announces the length of what follows. */
  ghost predicate IsContent(s: seq<byte>, header: seq<byte>, json: seq<byte>, rest: seq<byte>, limit: nat) {
    IsHeader(header) && Announces(header, |json|) && |json| <= limit && s == header + (json + rest)
  }

  lemma BehindHeader(s: seq<byte>, header: seq<byte>, limit: nat)
    requires IsHeader(header) && header <= s
    ensures ReadContent(s, 4, limit) == ReadBody(s, |header|, |header|, ParseContentLength(header), limit)
  {
    var n := |header|;
    assert s[..n] == header;
    HeaderFound(s, header, 4);
    FindFirst(header, END, 0, n - 4);
  }

  lemma BodyExactly(header: seq<byte>, tail: seq<byte>, length: Option<nat>, json: seq<byte>, rest: seq<byte>,
      limit: nat)
    ensures ReadBody(header + tail, |header|, |header|, length, limit) == Done(json, rest)
      <==> length == Some(|json|) && |json| <= limit && tail == json + rest
  {
    var s := header + tail;
    if length.Some? && length.value <= |tail| {
      var end := |header| + length.value;
      assert s[|header|..end] == tail[..length.value] && s[end..] == tail[length.value..];
      assert tail == tail[..length.value] + tail[length.value..];
    }
    if tail == json + rest {
      assert tail[..|json|] == json && tail[|json|..] == rest;
    }
  }

  lemma ContentRead(s: seq<byte>, header: seq<byte>, json: seq<byte>, rest: seq<byte>, limit: nat)
    requires IsContent(s, header, json, rest, limit)
    ensures ReadContent(s, 4, limit) == Done(json, rest)
  {
    BehindHeader(s, header, limit);
    LengthExactly(header, |json|);
    BodyExactly(header, json + rest, Some(|json|), json, rest, limit);
  }

  lemma ContentFrom(s: seq<byte>, json: seq<byte>, rest: seq<byte>, limit: nat) returns (header: seq<byte>)
    requires |s| >= 4 && ReadContent(s, 4, limit) == Done(json, rest)
    ensures IsContent(s, header, json, rest, limit)
  {
    HeaderFrom(s, 4);
    header := s[..HeaderLength(s, 4).value];
    var tail := s[|header|..];
    assert s == header + tail;
    BehindHeader(s, header, limit);
    BodyExactly(header, tail, ParseContentLength(header), json, rest, limit);
    LengthExactly(header, |json|);
  }

  /** The reader of JSON messages, four bytes of which are read already, takes exactly a header and what it
      announces. */
  lemma ContentExactly(s: seq<byte>, json: seq<byte>, rest: seq<byte>, limit: nat)
    requires |s| >= 4
    ensures ReadContent(s, 4, limit) == Done(json, rest) <==> exists h :: IsContent(s, h, json, rest, limit)
  {
    if ReadContent(s, 4, limit) == Done(json, rest) {
      var h := ContentFrom(s, json, rest, limit);
    }
    if h :| IsContent(s, h, json, rest, limit) {
      ContentRead(s, h, json, rest, limit);
    }
  }

  // ---- messages ----------------------------------------------------------------------------------

  ghost predicate IsMessage(s: seq<byte>, m: Message, rest: seq<byte>) {
    match m
    case Binary(f) => IsBinary(s, f, rest, MAX_BINARY)
    case Text(json) => !(RPC_MAGIC <= s) && exists h :: IsContent(s, h, json, rest, MAX_JSON)
  }

  /** The server's loop takes a message exactly where one stands: a binary frame, or content behind a header that does
      not begin like one. */
  lemma MessageExactly(s: seq<byte>, m: Message, rest: seq<byte>)
    ensures ReadMessage(s) == Done(m, rest) <==> IsMessage(s, m, rest)
  {
    match m
    case Binary(f) =>
      BinaryExactly(s, f, rest);
      if IsMessage(s, m, rest) {
        MessageBack(m, rest);
      }
    case Text(json) =>
      if |s| >= 4 {
        ContentExactly(s, json, rest, MAX_JSON);
        assert RPC_MAGIC <= s <==> s[..4] == RPC_MAGIC;
      }
  }
}
