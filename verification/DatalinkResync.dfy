/**
 * What the stream reader does behind bytes that are not frames: damaged frames, pieces of frames, anything else. It
 * returns the first frame of the stream, and it finds a frame behind such bytes exactly if nothing in them passes for
 * a frame or for the start of one.
 */
module DatalinkResync {
  import opened Wrappers
  import opened Bytes
  import opened Crc32
  import opened DatalinkFrame
  import opened DatalinkStream

  /** No position of the first n bytes begins a frame or passes for the start of one. */
  ghost predicate AllFruitless(x: seq<byte>, n: nat) {
    forall i | 0 <= i < n :: Fruitless(x, i)
  }

  /** A read ended one to three bytes behind one of the first n positions. */
  ghost predicate CutBefore(n: nat, start: nat, taken: seq<ReadResult>) {
    exists i :: 0 <= i < n && Cut(i, start, taken)
  }

  /** Bytes that begin with a frame are judged to be that frame. */
  lemma FrontIsFrame(f: Frame, later: seq<byte>)
    requires WellSized(f)
    ensures Judge(Encode(f) + later) == Good(HEADER_SIZE + |f.payload|, f) && !FutileNow(Encode(f) + later)
  {
    var x := Encode(f) + later;
    StreamFront(f, x, [], later);
    assert x[..4] == MAGIC;
  }

  /** A frame is not passed over, unless a read ended just behind its start. */
  lemma FrameIsNotFruitless(junk: seq<byte>, f: Frame, later: seq<byte>, x: seq<byte>)
    requires WellSized(f) && x == junk + (Encode(f) + later)
    ensures x[|junk|..] == Encode(f) + later && !Fruitless(x, |junk|)
  {
    FrontIsFrame(f, later);
    assert Seen(x, |junk|, 0);
  }

  lemma NotBehind(x: seq<byte>, start: nat, taken: seq<ReadResult>, r: Outcome,
      dropped: seq<byte>, bytes: seq<byte>, now: seq<byte>, junk: seq<byte>, f: Frame, later: seq<byte>)
    requires Served(x, start, taken, r, dropped, bytes, now)
    requires WellSized(f) && x == junk + (Encode(f) + later) && !Cut(|junk|, start, taken)
    ensures |dropped| <= |junk|
  {
    if |dropped| > |junk| {
      assert SkippedAt(x, |junk|, start, taken);
      FrameIsNotFruitless(junk, f, later, x);
    }
  }

  lemma FrameIsNotFutile(y: seq<byte>, n: nat)
    requires n <= |y| && Decode(y[..n]).Some?
    ensures !FutileNow(y)
  {
    if FutileNow(y) {
      FutileHasNoFrame(y, n);
    }
  }

  lemma FrontNotFutile(r: Outcome, bytes: seq<byte>, now: seq<byte>)
    requires if r.GotFrame? then Decode(bytes).Some? else bytes == [] && Waits(now)
    ensures !FutileNow(bytes + now)
  {
    if r.GotFrame? {
      assert (bytes + now)[..|bytes|] == bytes;
      FrameIsNotFutile(bytes + now, |bytes|);
    } else {
      assert Unfolded(0) && bytes + now == now;
    }
  }

  /** Where the reader returns a frame or waits, the position is not fruitless. */
  lemma NotBefore(x: seq<byte>, start: nat, taken: seq<ReadResult>, r: Outcome,
      dropped: seq<byte>, bytes: seq<byte>, now: seq<byte>)
    requires Served(x, start, taken, r, dropped, bytes, now)
    ensures !Fruitless(x, |dropped|)
  {
    assert x[|dropped|..] == bytes + now;
    FrontNotFutile(r, bytes, now);
    assert Seen(x, |dropped|, 0);
  }

  lemma DoesNotWait(f: Frame, later: seq<byte>)
    requires WellSized(f)
    ensures !Waits(Encode(f) + later)
  {
    FrontIsFrame(f, later);
    assert Unfolded(0);
  }

  lemma OneFrameInFront(f: Frame, later: seq<byte>, bytes: seq<byte>, now: seq<byte>)
    requires Encodable(f) && Encode(f) + later == bytes + now && Decode(bytes).Some?
    ensures Decode(bytes) == Some(f) && bytes == Encode(f) && now == later
  {
    var front := Encode(f) + later;
    DecodeEncode(f);
    assert front[..|bytes|] == bytes && front[..|Encode(f)|] == Encode(f);
    SameHeaderSameSize(bytes, Encode(f));
    assert front[|bytes|..] == now && front[|Encode(f)|..] == later;
  }

  /** At the start of a frame that is all there, the reader returns it. */
  lemma ReturnsFront(r: Outcome, bytes: seq<byte>, now: seq<byte>, f: Frame, later: seq<byte>)
    requires if r.GotFrame? then Decode(bytes) == Some(r.frame) else bytes == [] && Waits(now)
    requires WellSized(f) && bytes + now == Encode(f) + later
    ensures r == GotFrame(f) && bytes == Encode(f) && now == later
  {
    if !r.GotFrame? {
      assert bytes + now == now;
      DoesNotWait(f, later);
    } else {
      OneFrameInFront(f, later, bytes, now);
    }
  }

  lemma SameSplit(dropped: seq<byte>, bytes: seq<byte>, now: seq<byte>, junk: seq<byte>, rest: seq<byte>)
    requires dropped + bytes + now == junk + rest && |dropped| == |junk|
    ensures dropped == junk && bytes + now == rest
  {
    Regroup(dropped, bytes, now);
    assert (dropped + (bytes + now))[|junk|..] == (junk + rest)[|junk|..] == rest;
    assert (dropped + (bytes + now))[..|junk|] == (junk + rest)[..|junk|] == junk;
  }

  lemma DropsJunk(x: seq<byte>, start: nat, taken: seq<ReadResult>, r: Outcome,
      dropped: seq<byte>, bytes: seq<byte>, now: seq<byte>, junk: seq<byte>, f: Frame, later: seq<byte>)
    requires Served(x, start, taken, r, dropped, bytes, now)
    requires WellSized(f) && x == junk + (Encode(f) + later) && !Cut(|junk|, start, taken)
    requires AllFruitless(x, |junk|)
    ensures |dropped| == |junk|
  {
    NotBehind(x, start, taken, r, dropped, bytes, now, junk, f, later);
    NotBefore(x, start, taken, r, dropped, bytes, now);
  }

  lemma FindsIt(x: seq<byte>, start: nat, taken: seq<ReadResult>, r: Outcome,
      dropped: seq<byte>, bytes: seq<byte>, now: seq<byte>, junk: seq<byte>, f: Frame, later: seq<byte>)
    requires Served(x, start, taken, r, dropped, bytes, now)
    requires WellSized(f) && x == junk + (Encode(f) + later) && !Cut(|junk|, start, taken)
    requires AllFruitless(x, |junk|)
    ensures r == GotFrame(f) && dropped == junk && now == later
  {
    DropsJunk(x, start, taken, r, dropped, bytes, now, junk, f, later);
    SameSplit(dropped, bytes, now, junk, Encode(f) + later);
    ReturnsFront(r, bytes, now, f, later);
  }

  /**
   * The next complete frame behind other bytes is the one returned, exactly if no position before it passes for a
   * frame or for the start of one. (Where a read ends within three bytes of a position, it may be dropped anyway.)
   */
  lemma FindsFrame(x: seq<byte>, start: nat, taken: seq<ReadResult>, r: Outcome,
      dropped: seq<byte>, bytes: seq<byte>, now: seq<byte>, junk: seq<byte>, f: Frame, later: seq<byte>)
    requires Served(x, start, taken, r, dropped, bytes, now)
    requires WellSized(f) && x == junk + (Encode(f) + later) && !Cut(|junk|, start, taken)
    ensures AllFruitless(x, |junk|) ==> r == GotFrame(f) && dropped == junk && now == later
    ensures !CutBefore(|junk|, start, taken) && dropped == junk ==> AllFruitless(x, |junk|)
  {
    if AllFruitless(x, |junk|) {
      FindsIt(x, start, taken, r, dropped, bytes, now, junk, f, later);
    }
    if !CutBefore(|junk|, start, taken) && dropped == junk {
      forall i | 0 <= i < |junk|
        ensures Fruitless(x, i)
      {
        assert SkippedAt(x, i, start, taken);
      }
    }
  }

  // ---- damaged frames ---------------------------------------------------------------------------

  /** A frame with a damaged payload is passed over: its header announces as many bytes as it has. */
  lemma DamagedPayloadIsFruitless(f: Frame, before: seq<byte>, sent: seq<byte>, received: seq<byte>, after: seq<byte>,
      later: seq<byte>)
    requires WellSized(f) && f.payload == before + sent + after
    requires |sent| == |received| <= 4 && sent != received
    ensures Fruitless(Encode(f)[..HEADER_SIZE] + (before + received + after) + later, 0)
  {
    var damaged := Encode(f)[..HEADER_SIZE] + (before + received + after);
    var x := damaged + later;
    DamagedPayloadRejected(f, before, sent, received, after);
    FrameStart(f);
    CorruptFront(damaged, Encode(f), later);
    assert x[0..] == x;
  }

  lemma CorruptFront(damaged: seq<byte>, good: seq<byte>, later: seq<byte>)
    requires HEADER_SIZE <= |damaged| == |good| == FrameSize(good) <= RX_STREAM_SIZE
    requires damaged[..HEADER_SIZE] == good[..HEADER_SIZE] && Decode(damaged).None?
    ensures FutileNow(damaged + later)
  {
    var x := damaged + later;
    assert forall k | 0 <= k < HEADER_SIZE :: x[k] == damaged[..HEADER_SIZE][k];
    SameHeaderSameSize(x, good);
    assert x[..|damaged|] == damaged;
  }

  /**
   * A frame with damaged header fields is no frame, whatever size it announces now. It is passed over if its magic word
   * is damaged, or if all it announces is there; otherwise the reader waits for more.
   */
  lemma DamagedFieldsCases(f: Frame, before: seq<byte>, sent: seq<byte>, received: seq<byte>, after: seq<byte>,
      later: seq<byte>)
    requires WellSized(f) && Fields(f) == before + sent + after
    requires |sent| == |received| <= 4 && sent != received
    ensures var x := before + received + after + Encode(f)[32..] + later;
      Fruitless(x, 0) <==>
        x[..4] != MAGIC || (x[5] == HEADER_SIZE && FrameSize(x) <= |x| && FrameSize(x) <= RX_STREAM_SIZE)
  {
    var head, rest := before + received + after, Encode(f)[32..];
    var x := head + rest + later;
    var headerCrc := Crc(Fields(f) + NO_CRC);
    BurstDetected(before, sent, received, after + NO_CRC);
    Regroup(before + sent, after, NO_CRC);
    Regroup(before + received, after, NO_CRC);
    Layout(VERSION, f, Crc(f.payload), headerCrc);
    assert rest[..4] == Encode(f)[32..36];
    OtherHeader(head, rest, later, headerCrc);
    WrongHeader(x);
    assert x[0..] == x;
    assert Seen(x, 0, 0);
  }

  /** Other bytes in front of a header checksum. */
  lemma OtherHeader(head: seq<byte>, rest: seq<byte>, later: seq<byte>, crc: u32)
    requires |head| == 32 && |rest| >= 4 && rest[..4] == Le32(crc)
    ensures var x := head + rest + later; x[..32] == head && ReadLe32(x, 32) == crc
  {
    var x := head + rest + later;
    assert x[32..36] == rest[..4];
    Le32RoundTrip(x, 32, crc);
  }

  /** If the header checksum is wrong, no number of bytes is a frame. */
  lemma NeverDecodes(x: seq<byte>, n: nat)
    requires HEADER_SIZE <= n <= |x| && Crc(x[..32] + NO_CRC) != ReadLe32(x, 32)
    ensures Decode(x[..n]).None?
  {
    SameHeader(x, n);
    OwnHeader(x[..n]);
  }

  lemma SameHeader(x: seq<byte>, n: nat)
    requires HEADER_SIZE <= n <= |x|
    ensures x[..n][..32] == x[..32] && ReadLe32(x[..n], 32) == ReadLe32(x, 32)
  {}

  lemma OwnHeader(y: seq<byte>)
    requires |y| >= HEADER_SIZE && Crc(y[..32] + NO_CRC) != ReadLe32(y, 32)
    ensures Decode(y).None?
  {}

  lemma WrongHeader(x: seq<byte>)
    requires |x| >= HEADER_SIZE && Crc(x[..32] + NO_CRC) != ReadLe32(x, 32)
    ensures FutileNow(x) <==>
      x[..4] != MAGIC || (x[5] == HEADER_SIZE && FrameSize(x) <= |x| && FrameSize(x) <= RX_STREAM_SIZE)
  {
    if 0 < FrameSize(x) <= |x| {
      NeverDecodes(x, FrameSize(x));
    }
  }

  /** The header size field of a frame that stands at the front is damaged, or it announces more than the buffer
      holds. */
  predicate Stuck(b: seq<byte>) {
    |b| >= 6 && b[..4] == MAGIC && (b[5] != HEADER_SIZE || (|b| >= HEADER_SIZE && FrameSize(b) > RX_STREAM_SIZE))
  }

  /** What stands at the front of enough bytes: something to pass over, a frame, one that never ends, or one to wait
      for. */
  lemma FrontCases(b: seq<byte>)
    requires |b| >= HEADER_SIZE
    ensures FutileNow(b) || Judge(b).Good? || Stuck(b) || |b| < FrameSize(b) <= RX_STREAM_SIZE
    ensures Stuck(b) ==> WaitsNow(b) && !FutileNow(b)
  {}

  /** Changing the header size byte of a frame has this effect. */
  lemma DamagedSizeIsStuck(f: Frame, size: byte, later: seq<byte>)
    requires Encodable(f) && size != HEADER_SIZE
    ensures Stuck(Encode(f)[5 := size] + later)
  {
    FrameStart(f);
  }

  lemma StuckMore(b: seq<byte>, more: seq<byte>)
    requires Stuck(b)
    ensures Stuck(b + more)
  {
    if |b| >= HEADER_SIZE {
      SameHeaderSameSize(b, b + more);
    }
    assert (b + more)[..4] == b[..4];
  }

  lemma StuckHasNoFrame(b: seq<byte>, n: nat)
    requires Stuck(b) && n <= |b| && n <= RX_STREAM_SIZE
    ensures Decode(b[..n]).None?
  {
    if n >= HEADER_SIZE {
      SameHeaderSameSize(b[..n], b);
    }
  }

  lemma StuckHasNoPrefix(bytes: seq<byte>, now: seq<byte>)
    requires Stuck(bytes + now) && |bytes| <= RX_STREAM_SIZE
    ensures Decode(bytes).None?
  {
    assert (bytes + now)[..|bytes|] == bytes;
    StuckHasNoFrame(bytes + now, |bytes|);
  }

  lemma StuckNotSkipped(x: seq<byte>, start: nat, taken: seq<ReadResult>)
    requires Stuck(x) && start >= 4
    ensures !SkippedAt(x, 0, start, taken)
  {
    assert Seen(x, 0, 0) && x[0..] == x;
  }

  /** Then no read returns a frame or drops a byte, and the next read finds the same. */
  lemma StaysStuck(b: seq<byte>, taken: seq<ReadResult>, r: Outcome, dropped: seq<byte>, bytes: seq<byte>,
      now: seq<byte>)
    requires Stuck(b) && Served(b + Delivered(taken), |b|, taken, r, dropped, bytes, now)
    ensures !r.GotFrame? && dropped == [] && Stuck(now)
  {
    StuckMore(b, Delivered(taken));
    StuckNotSkipped(b + Delivered(taken), |b|, taken);
    assert dropped + bytes + now == bytes + now;
    StuckHasNoPrefix(bytes, now);
    assert bytes == [] ==> bytes + now == now;
  }

  /** However often it is called, the reader never returns a frame again. */
  method ReadForEver(reader: StreamReader, calls: nat) returns (outcomes: seq<Outcome>)
    requires reader.Valid() && Stuck(reader.Buffered())
    modifies reader`size, reader`answers, reader.rx
    ensures reader.Valid() && Stuck(reader.Buffered())
    ensures |outcomes| == calls && forall r <- outcomes :: !r.GotFrame?
  {
    outcomes := [];
    for i := 0 to calls
      invariant reader.Valid() && Stuck(reader.Buffered())
      invariant |outcomes| == i && forall r <- outcomes :: !r.GotFrame?
    {
      ghost var before := reader.Buffered();
      var r, dropped, bytes, taken := reader.ReadFrame([]);
      StaysStuck(before, taken, r, dropped, bytes, reader.Buffered());
      outcomes := outcomes + [r];
    }
  }
}
