/** Two self-delimiting framings on one byte stream: JSON behind a Content-Length header, and binary frames. */
module RpcFraming {
  import opened Wrappers
  import opened Bytes
  import opened Crc32
  import opened DatalinkFrame
  import opened Json
  import opened JsonTree
  import opened RpcBinary

  const KEY: seq<byte> :=
    [0x43, 0x6f, 0x6e, 0x74, 0x65, 0x6e, 0x74, 0x2d, 0x4c, 0x65, 0x6e, 0x67, 0x74, 0x68, 0x3a]  // "Content-Length:"
  const END: seq<byte> := [0x0d, 0x0a, 0x0d, 0x0a]
  const MAX_HEADER := 4096
  const MAX_JSON := 16 * 1024 * 1024
  const MAX_BINARY := 64 * 1024 * 1024

  // ---- decimal numbers -------------------------------------------------------------------------

  function Decimal(n: nat): (r: seq<byte>)
    ensures r != [] && AllDigits(r)
  {
    if n < 10 then [0x30 + n] else Decimal(n / 10) + [0x30 + n % 10]
  }

  function DecimalValue(s: seq<byte>): nat
    requires AllDigits(s)
  {
    if s == [] then 0 else DecimalValue(s[..|s| - 1]) * 10 + (s[|s| - 1] - 0x30)
  }

  lemma {:induction false} DecimalBack(n: nat)
    ensures DecimalValue(Decimal(n)) == n
  {
    var s := Decimal(n);
    if n >= 10 {
      DecimalBack(n / 10);
      assert s[..|s| - 1] == Decimal(n / 10);
    } else {
      assert s[..0] == [];
    }
  }

  function Power10(k: nat): (r: nat)
    ensures r > 0
  {
    if k == 0 then 1 else 10 * Power10(k - 1)
  }

  lemma {:induction false} DecimalLength(n: nat, k: nat)
    requires k > 0 && n < Power10(k)
    ensures |Decimal(n)| <= k
  {
    if n >= 10 {
      assert k > 1;
      DecimalLength(n / 10, k - 1);
    }
  }

  // ---- finding a word --------------------------------------------------------------------------

  predicate At(s: seq<byte>, word: seq<byte>, i: nat) {
    i + |word| <= |s| && s[i..i + |word|] == word
  }

  /** std::string::find from i on. */
  function Find(s: seq<byte>, word: seq<byte>, i: nat): (r: Option<nat>)
    ensures r.Some? ==> i <= r.value && At(s, word, r.value) && forall k | i <= k < r.value :: !At(s, word, k)
    ensures r.None? ==> forall k | i <= k :: !At(s, word, k)
    decreases |s| - i
  {
    if At(s, word, i) then Some(i) else if i >= |s| then None else Find(s, word, i + 1)
  }

  lemma {:induction false} FindFirst(s: seq<byte>, word: seq<byte>, i: nat, at: nat)
    requires i <= at && At(s, word, at) && forall k | i <= k < at :: !At(s, word, k)
    ensures Find(s, word, i) == Some(at)
    decreases at - i
  {
    if i < at {
      FindFirst(s, word, i + 1, at);
    }
  }

  lemma AtHead(s: seq<byte>, word: seq<byte>, i: nat)
    requires word != []
    ensures At(s, word, i) ==> s[i] == word[0]
  {
    if At(s, word, i) {
      assert s[i..i + |word|][0] == word[0];
    }
  }

  // ---- reading ---------------------------------------------------------------------------------

  /** How many bytes are read until the blank line is among them; the first n have been read. */
  function HeaderLength(s: seq<byte>, n: nat): (r: Option<nat>)
    requires n <= |s|
    ensures r.Some? ==> n <= r.value <= |s| && Find(s[..r.value], END, 0).Some?
    decreases |s| - n
  {
    if Find(s[..n], END, 0).Some? then Some(n)
    else if n == |s| || n + 1 > MAX_HEADER then None
    else HeaderLength(s, n + 1)
  }

  /** parseContentLength; a number that does not fit 64 bits is refused. */
  function ParseContentLength(header: seq<byte>): Option<nat> {
    var at := Find(header, KEY, 0);
    if at.None? then None
    else
      var t := SkipSpace(header[at.value + |KEY|..]);
      var digits := t[..DigitSpan(t)];
      if digits == [] || DecimalValue(digits) >= 0x1_0000_0000_0000_0000 then None else Some(DecimalValue(digits))
  }

  /** The payload behind a header that ends at end, when the first n bytes have been read. */
  function ReadBody(s: seq<byte>, n: nat, end: nat, length: Option<nat>, limit: nat): (r: Parsed<seq<byte>>)
    requires end <= n <= |s|
    ensures r.Done? ==> |r.rest| <= |s| - n
  {
    if length.None? || length.value > limit || end + length.value > |s| then Fail
    else
      var consumed := if end + length.value > n then end + length.value else n;
      Done(s[end..end + length.value], s[consumed..])
  }

  /** readContentLengthFrameWithPrefix, the first bytes of s being the prefix. */
  function ReadContent(s: seq<byte>, prefix: nat, limit: nat): (r: Parsed<seq<byte>>)
    requires prefix <= |s|
    ensures r.Done? ==> |r.rest| <= |s| - prefix
  {
    var n := HeaderLength(s, prefix);
    if n.None? then Fail
    else
      var end := Find(s[..n.value], END, 0).value + |END|;
      ReadBody(s, n.value, end, ParseContentLength(s[..end]), limit)
  }

  /** readBinaryFrameWithPrefix for a prefix of at most 44 bytes. */
  function ReadBinary(s: seq<byte>, limit: nat): (r: Parsed<BinaryFrame>)
    ensures r.Done? ==> |r.rest| < |s|
  {
    if |s| < RPC_HEADER_SIZE || !GoodStart(s) || ReadLe32(s, 32) > limit then Fail
    else
      var size := RPC_HEADER_SIZE + ReadLe32(s, 32);
      if |s| < size then Fail
      else
        var f := DecodeBinary(s[..size]);
        if f.None? then Fail else Done(f.value, s[size..])
  }

  datatype Message = Text(json: seq<byte>) | Binary(frame: BinaryFrame)

  /** One turn of the pipe server's loop: four bytes decide which reader takes the message. */
  function ReadMessage(s: seq<byte>): (r: Parsed<Message>)
    ensures r.Done? ==> |r.rest| < |s|
  {
    if |s| < 4 then Fail
    else if s[..4] == RPC_MAGIC then
      var b := ReadBinary(s, MAX_BINARY);
      if b.Fail? then Fail else Done(Binary(b.value), b.rest)
    else
      var t := ReadContent(s, 4, MAX_JSON);
      if t.Fail? then Fail else Done(Text(t.value), t.rest)
  }

  /** n messages one after the other, each taken by the same reader. */
  function Turns<M>(read: seq<byte> -> Parsed<M>, s: seq<byte>, n: nat): Parsed<seq<M>> {
    if n == 0 then Done([], s)
    else
      var before := Turns(read, s, n - 1);
      if before.Fail? then Fail
      else
        var m := read(before.rest);
        if m.Fail? then Fail else Done(before.value + [m.value], m.rest)
  }

  lemma {:induction false} StaysFailed<M>(read: seq<byte> -> Parsed<M>, s: seq<byte>, k: nat, n: nat)
    requires k <= n && Turns(read, s, k) == Fail
    ensures Turns(read, s, n) == Fail
  {
    if k < n {
      StaysFailed(read, s, k, n - 1);
    }
  }

  lemma TurnsNext<M>(read: seq<byte> -> Parsed<M>, s: seq<byte>, ms: seq<M>, rest: seq<byte>)
    requires Turns(read, s, |ms|) == Done(ms, rest)
    ensures read(rest).Fail? ==> Turns(read, s, |ms| + 1) == Fail
    ensures read(rest).Done? ==> Turns(read, s, |ms| + 1) == Done(ms + [read(rest).value], read(rest).rest)
  {}

  function ReadMessages(s: seq<byte>, n: nat): Parsed<seq<Message>> {
    Turns(ReadMessage, s, n)
  }

  /** One more message, or the end of the run. */
  lemma Turn(s: seq<byte>, ms: seq<Message>, before: seq<byte>, m: Option<Message>, now: seq<byte>, n: nat)
    requires ReadMessages(s, |ms|) == Done(ms, before) && |ms| < n
    requires ReadMessage(before) == if m.None? then Fail else Done(m.value, now)
    ensures m.None? ==> ReadMessages(s, n) == Fail
    ensures m.Some? ==> ReadMessages(s, |ms| + 1) == Done(ms + [m.value], now)
  {
    TurnsNext(ReadMessage, s, ms, before);
    if m.None? {
      StaysFailed(ReadMessage, s, |ms| + 1, n);
    }
  }

  // ---- writing ---------------------------------------------------------------------------------

  /** The header encodeContentLengthFrame writes. */
  function Header(length: nat): seq<byte> {
    KEY + ([0x20] + (Decimal(length) + END))
  }

  function EncodeContent(json: seq<byte>): seq<byte> {
    Header(|json|) + json
  }

  predicate WithinLimits(m: Message) {
    match m
    case Text(json) => |json| <= MAX_JSON
    case Binary(f) => |f.payload| <= MAX_BINARY
  }

  function EncodeMessage(m: Message): seq<byte>
    requires WithinLimits(m)
  {
    match m
    case Text(json) => EncodeContent(json)
    case Binary(f) => EncodeBinary(f)
  }

  /** Messages written back to back. */
  function Concat<M>(encode: M --> seq<byte>, ms: seq<M>): seq<byte>
    requires forall i | 0 <= i < |ms| :: encode.requires(ms[i])
  {
    if ms == [] then [] else Concat(encode, ms[..|ms| - 1]) + encode(ms[|ms| - 1])
  }

  function EncodeMessages(ms: seq<Message>): seq<byte>
    requires forall i | 0 <= i < |ms| :: WithinLimits(ms[i])
  {
    Concat(EncodeMessage, ms)
  }

  // ---- reading undoes writing ------------------------------------------------------------------

  /** The blank line comes first at the end of the header: nothing before it is a carriage return. */
  lemma HeaderEnd(length: nat)
    ensures var h := Header(length);
      Find(h, END, 0) == Some(|h| - |END|) && At(h, KEY, 0)
      && (forall n | 0 <= n < |h| :: Find(h[..n], END, 0).None?)
  {
    var h := Header(length);
    var d := Decimal(length);
    assert h[|h| - 4..] == END;
    assert forall k | 0 <= k < |d| :: h[16 + k] == d[k];
    assert forall k | 0 <= k < |h| - 4 :: h[k] != 0x0d;
    forall k | 0 <= k < |h| - 4
      ensures !At(h, END, k)
    {
      AtHead(h, END, k);
    }
    FindFirst(h, END, 0, |h| - 4);
    forall n | 0 <= n < |h|
      ensures Find(h[..n], END, 0).None?
    {
      forall k | 0 <= k
        ensures !At(h[..n], END, k)
      {
        AtHead(h[..n], END, k);
      }
    }
  }

  lemma HeaderShort(length: nat)
    requires length <= MAX_JSON
    ensures |Header(length)| <= 28
  {
    assert Power10(8) == 100_000_000 by {
      assert Power10(4) == 10_000 && Power10(6) == 100 * Power10(4);
    }
    DecimalLength(length, 8);
  }

  lemma {:induction false} HeaderRead(length: nat, rest: seq<byte>, n: nat)
    requires length <= MAX_JSON && n <= |Header(length)|
    ensures HeaderLength(Header(length) + rest, n) == Some(|Header(length)|)
    decreases |Header(length)| - n
  {
    var h := Header(length);
    var s := h + rest;
    HeaderEnd(length);
    HeaderShort(length);
    assert s[..n] == h[..n];
    if n < |h| {
      HeaderRead(length, rest, n + 1);
    } else {
      assert h[..n] == h;
    }
  }

  lemma LengthIs(header: seq<byte>, digits: seq<byte>, rest: seq<byte>)
    requires Find(header, KEY, 0) == Some(0) && header[|KEY|..] == [0x20] + (digits + rest)
    requires digits != [] && AllDigits(digits) && (rest == [] || !IsDigit(rest[0]))
    requires DecimalValue(digits) < 0x1_0000_0000_0000_0000
    ensures ParseContentLength(header) == Some(DecimalValue(digits))
  {
    var t := digits + rest;
    assert ([0x20] + t)[1..] == t && t[0] == digits[0] && SkipSpace(t) == t;
    SpanOfDigits(digits, rest);
    assert t[..|digits|] == digits;
  }

  lemma LengthRead(length: nat)
    requires length <= MAX_JSON
    ensures ParseContentLength(Header(length)) == Some(length)
  {
    var h := Header(length);
    HeaderEnd(length);
    FindFirst(h, KEY, 0, 0);
    DecimalBack(length);
    assert h[|KEY|..] == [0x20] + (Decimal(length) + END);
    LengthIs(h, Decimal(length), END);
  }

  lemma ContentBack(json: seq<byte>, rest: seq<byte>)
    requires |json| <= MAX_JSON
    ensures ReadContent(EncodeContent(json) + rest, 4, MAX_JSON) == Done(json, rest)
  {
    var h := Header(|json|);
    var s := EncodeContent(json) + rest;
    Regroup(h, json, rest);
    HeaderRead(|json|, json + rest, 4);
    HeaderEnd(|json|);
    LengthRead(|json|);
    assert s[..|h|] == h;
    assert s[|h|..|h| + |json|] == json && s[|h| + |json|..] == rest;
  }

  lemma BinaryBack(f: BinaryFrame, rest: seq<byte>)
    requires |f.payload| <= MAX_BINARY
    ensures ReadBinary(EncodeBinary(f) + rest, MAX_BINARY) == Done(f, rest)
  {
    var payloadCrc := PayloadCrc(f.payload);
    BinaryBackWith(f, payloadCrc, Crc(HeadWith(f, payloadCrc) + NO_CRC), rest);
    DecodeEncodeBinary(f);
  }

  lemma BinaryBackWith(f: BinaryFrame, payloadCrc: u32, headerCrc: u32, rest: seq<byte>)
    requires |f.payload| <= MAX_BINARY
    ensures var s := BytesWith(f, payloadCrc, headerCrc) + rest;
      var size := RPC_HEADER_SIZE + |f.payload|;
      GoodStart(s) && ReadLe32(s, 32) == |f.payload|
      && s[..size] == BytesWith(f, payloadCrc, headerCrc) && s[size..] == rest
  {
    var s := BytesWith(f, payloadCrc, headerCrc) + rest;
    Regroup(HeadWith(f, payloadCrc) + Le32(headerCrc), f.payload, rest);
    HeaderLayout(f, payloadCrc, headerCrc, f.payload + rest);
    KindRead(f, s);
    MarksRead(f, payloadCrc, s);
  }

  /** One message, of either kind, is recognised, read back, and followed exactly where it ends. */
  lemma MessageBack(m: Message, rest: seq<byte>)
    requires WithinLimits(m)
    ensures ReadMessage(EncodeMessage(m) + rest) == Done(m, rest)
  {
    var s := EncodeMessage(m) + rest;
    match m
    case Text(json) =>
      assert s[0] == KEY[0] && s[1] == KEY[1];
      assert s[..4][1] == 0x6f;
      ContentBack(json, rest);
    case Binary(f) =>
      BinaryBack(f, rest);
      assert s[..4] == RPC_MAGIC;
  }

  /** If every single message is read back, so is any number of them back to back. */
  lemma {:induction false} AllBack<M(!new)>(read: seq<byte> -> Parsed<M>, encode: M --> seq<byte>, ms: seq<M>,
    rest: seq<byte>)
    requires forall i | 0 <= i < |ms| :: encode.requires(ms[i])
    requires forall i, t | 0 <= i < |ms| :: read(encode(ms[i]) + t) == Done(ms[i], t)
    ensures Turns(read, Concat(encode, ms) + rest, |ms|) == Done(ms, rest)
  {
    if ms == [] {
      assert Concat(encode, ms) + rest == rest;
    } else {
      var front, last := ms[..|ms| - 1], ms[|ms| - 1];
      Regroup(Concat(encode, front), encode(last), rest);
      AllBack(read, encode, front, encode(last) + rest);
      TurnsNext(read, Concat(encode, ms) + rest, front, encode(last) + rest);
      assert front + [last] == ms;
    }
  }

  /** Any mixture of JSON messages and binary frames, written back to back, is read back as it was. */
  lemma MixedStream(ms: seq<Message>, rest: seq<byte>)
    requires forall i | 0 <= i < |ms| :: WithinLimits(ms[i])
    ensures ReadMessages(EncodeMessages(ms) + rest, |ms|) == Done(ms, rest)
  {
    forall i, t | 0 <= i < |ms|
      ensures ReadMessage(EncodeMessage(ms[i]) + t) == Done(ms[i], t)
    {
      MessageBack(ms[i], t);
    }
    AllBack(ReadMessage, EncodeMessage, ms, rest);
  }
}
