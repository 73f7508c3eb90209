/** From the bytes a device delivers to the packet a caller gets: the stream reader under the receive loop. */
module DatalinkDelivery {
  import opened Wrappers
  import opened Bytes
  import opened DatalinkFrame
  import opened DatalinkPacket
  import opened DatalinkArq
  import opened DatalinkLink
  import DatalinkStream

  // ---- what reads find ---------------------------------------------------------------------------

  /** Reads of which each finds a frame. */
  function Calls(frames: seq<Frame>): seq<Option<Frame>> {
    if frames == [] then [] else [Some(frames[0])] + Calls(frames[1..])
  }

  /** The frames that reads found. */
  function Found(heard: seq<Option<Frame>>): seq<Frame> {
    if heard == [] then [] else (if heard[0].Some? then [heard[0].value] else []) + Found(heard[1..])
  }

  lemma {:induction false} FoundSnoc(heard: seq<Option<Frame>>, read: Option<Frame>)
    ensures Found(heard + [read]) == Found(heard) + if read.Some? then [read.value] else []
  {
    if heard == [] {
      assert [read][1..] == [] && heard + [read] == [read];
    } else {
      FoundSnoc(heard[1..], read);
      assert (heard + [read])[1..] == heard[1..] + [read];
    }
  }

  lemma {:induction false} CallsAppend(a: seq<Frame>, b: seq<Frame>)
    ensures Calls(a + b) == Calls(a) + Calls(b)
  {
    if a == [] {
      assert a + b == b;
    } else {
      CallsAppend(a[1..], b);
      assert (a + b)[1..] == a[1..] + b;
      Regroup([Some(a[0])], Calls(a[1..]), Calls(b));
    }
  }

  lemma {:induction false} FoundBounded(heard: seq<Option<Frame>>)
    requires forall f <- Found(heard) :: Bounded(f)
    ensures InboxBounded(heard)
  {
    if heard != [] {
      var f := heard[0];
      assert f.Some? ==> f.value == Found(heard)[0];
      assert forall g <- Found(heard[1..]) :: g in Found(heard);
      FoundBounded(heard[1..]);
    }
  }

  lemma {:induction false} FoundIn(heard: seq<Option<Frame>>, i: nat)
    requires i < |heard| && heard[i].Some?
    ensures heard[i].value in Found(heard)
  {
    if i > 0 {
      FoundIn(heard[1..], i - 1);
    }
  }

  lemma FoundFromWire(heard: seq<Option<Frame>>, p: Station)
    requires forall f <- Found(heard) :: f in p.wire
    ensures FromWire(heard, p)
  {
    forall i | 0 <= i < |heard| && heard[i].Some?
      ensures heard[i].value in p.wire
    {
      FoundIn(heard, i);
    }
  }

  /** The fragments of a packet, found one by one, are the packet in flight. */
  lemma {:induction false} FlightIs(q: u32, data: seq<byte>, cap: Capacity, n: nat)
    requires IsPacket(data) && n <= FragmentCount(|data|, cap)
    ensures var all := Fragments(q, data, cap, FragmentCount(|data|, cap));
      InFlight(q, data, cap, n) == Calls(all[n..])
    decreases FragmentCount(|data|, cap) - n
  {
    var all := Fragments(q, data, cap, FragmentCount(|data|, cap));
    if n < |all| {
      FlightIs(q, data, cap, n + 1);
      assert all[n..][1..] == all[n + 1..] && all[n..][0] == Fragment(q, data, cap, n);
    }
  }

  // ---- reading -----------------------------------------------------------------------------------

  /** ac_datalink_read_frame called until the device has no more answers. However the device cuts the stream and
      whenever it times out or fails, the reads find its frames in order; if every read of the device delivers
      something, no read is in vain. */
  method ReadScript(reader: DatalinkStream.StreamReader, ghost frames: seq<Frame>) returns (heard: seq<Option<Frame>>)
    requires reader.Valid() && reader.Ready(frames)
    modifies reader`size, reader`answers, reader.rx
    ensures reader.Valid() && Found(heard) == frames
    ensures DatalinkStream.Steady(old(reader.answers)) ==> heard == Calls(frames)
  {
    heard := [];
    ghost var left := frames;
    while true
      invariant reader.Valid() && reader.Ready(left) && Found(heard) + left == frames
      invariant DatalinkStream.Steady(old(reader.answers)) ==>
        DatalinkStream.Steady(reader.answers) && heard + Calls(left) == Calls(frames)
      decreases |left| + |reader.answers|
    {
      var r, dropped, bytes, taken := reader.ReadFrame(left);
      if r.NoData? && reader.answers == [] {
        assert heard + [] == heard && Found(heard) + [] == Found(heard);
        return;
      }
      var read := if r.GotFrame? then Some(r.frame) else None;
      FoundSnoc(heard, read);
      if r.GotFrame? {
        NextRead(heard, left);
        left := left[1..];
      } else {
        assert Found(heard) + [] == Found(heard);
      }
      heard := heard + [read];
    }
  }

  lemma NextRead(heard: seq<Option<Frame>>, left: seq<Frame>)
    requires left != []
    ensures Found(heard) + [left[0]] + left[1..] == Found(heard) + left
    ensures heard + [Some(left[0])] + Calls(left[1..]) == heard + Calls(left)
  {
    assert left == [left[0]] + left[1..];
  }

  // ---- receiving ---------------------------------------------------------------------------------

  /** A receive call over a byte stream of frames that the peer wrote: whatever the cuts, time-outs and failures of
      the device, a packet that is handed over is one the peer submitted, byte for byte. */
  method ReceiveFrom(reader: DatalinkStream.StreamReader, link: Link, payload: array<byte>,
    ghost frames: seq<Frame>, ghost w: World, ghost onLeft: bool) returns (ok: bool, actualSize: nat, ghost q: u32)
    requires reader.Valid() && reader.Ready(frames) && link.Valid() && payload != reader.rx
    requires Reachable(w) && link.station == Here(w, onLeft)
    requires forall f <- frames :: f in There(w, onLeft).wire
    modifies reader`size, reader`answers, reader.rx, link, payload
    ensures reader.Valid() && link.Valid() && actualSize <= payload.Length
    ensures ok ==> q in There(w, onLeft).packets && There(w, onLeft).packets[q] == payload[..actualSize]
    ensures ok ==> link.station.delivered == old(link.station.delivered) + [(q, payload[..actualSize])]
    ensures !ok ==> actualSize == 0 && link.station.delivered == old(link.station.delivered)
  {
    var heard := ReadScript(reader, frames);
    NothingExcluded(w, onLeft);
    FoundBounded(heard);
    FoundFromWire(heard, There(w, onLeft));
    link.inbox := heard;
    ghost var m, buffer := link.State(), payload[..];
    ok, actualSize, q := link.ReceivePacket(payload);
    if ok {
      ReceiveIntegrity(w, onLeft, m, buffer, q, payload[..actualSize]);
    }
  }

  /** All frames of a stream that starts with a packet fit the reader's buffer. */
  lemma FragmentsWellSized(q: u32, data: seq<byte>, cap: Capacity, more: seq<Frame>)
    requires IsPacket(data) && DatalinkStream.AllWellSized(more)
    ensures DatalinkStream.AllWellSized(Fragments(q, data, cap, FragmentCount(|data|, cap)) + more)
  {}

  lemma FragmentsBounded(q: u32, data: seq<byte>, cap: Capacity, more: seq<Frame>)
    requires IsPacket(data) && forall f <- more :: Bounded(f)
    ensures forall f <- Fragments(q, data, cap, FragmentCount(|data|, cap)) + more :: Bounded(f)
  {}

  /** The bytes of the fragments of a packet, and of more frames behind them. */
  function PacketStream(q: u32, data: seq<byte>, cap: Capacity, more: seq<Frame>): seq<byte>
    requires IsPacket(data) && DatalinkStream.AllWellSized(more)
  {
    FragmentsWellSized(q, data, cap, more);
    DatalinkStream.Stream(Fragments(q, data, cap, FragmentCount(|data|, cap)) + more)
  }

  lemma FlightFirst(q: u32, data: seq<byte>, cap: Capacity, more: seq<Frame>)
    requires IsPacket(data)
    ensures var all := Fragments(q, data, cap, FragmentCount(|data|, cap));
      Calls(all + more) == InFlight(q, data, cap, 0) + Calls(more)
  {
    var all := Fragments(q, data, cap, FragmentCount(|data|, cap));
    FlightIs(q, data, cap, 0);
    assert all[0..] == all;
    CallsAppend(all, more);
  }

  /** A receive call that finds the fragments of a packet one by one delivers it. */
  method DeliverFlight(link: Link, payload: array<byte>,
    ghost q: u32, ghost data: seq<byte>, ghost cap: Capacity, ghost rest: seq<Option<Frame>>)
    returns (ok: bool, actualSize: nat)
    requires IsPacket(data) && |data| <= payload.Length && link.inbox == InFlight(q, data, cap, 0) + rest
    requires link.Valid() && link.open && link.verdicts == []
    modifies link, payload
    ensures link.Valid() && actualSize <= payload.Length
    ensures ok && payload[..actualSize] == data && link.inbox == rest
    ensures link.station.delivered == old(link.station.delivered) + [(q, data)]
  {
    ghost var delivered, told := link.station.delivered, q;
    CleanReceive(link.State(), q, data, cap, payload[..], rest);
    ok, actualSize, told := link.ReceivePacket(payload);
    OneMore(delivered, q, data);
  }

  lemma OneMore(delivered: seq<(u32, seq<byte>)>, q: u32, data: seq<byte>)
    ensures (delivered + [(q, data)])[|delivered|] == (q, data) && delivered + [(q, data)] != delivered
  {}

  /** The fragments of a packet and more frames behind them, read without a read in vain: the receive call delivers
      the packet, whatever the cuts, and leaves the frames behind it. */
  method DeliverFrom(reader: DatalinkStream.StreamReader, link: Link, payload: array<byte>,
    ghost q: u32, ghost data: seq<byte>, ghost cap: Capacity, ghost more: seq<Frame>)
    returns (ok: bool, actualSize: nat)
    requires IsPacket(data) && |data| <= payload.Length && forall f <- more :: Bounded(f)
    requires reader.Valid() && reader.Ready(Fragments(q, data, cap, FragmentCount(|data|, cap)) + more)
    requires DatalinkStream.Steady(reader.answers) && payload != reader.rx
    requires link.Valid() && link.open && link.verdicts == []
    modifies reader`size, reader`answers, reader.rx, link, payload
    ensures reader.Valid() && link.Valid() && actualSize <= payload.Length
    ensures ok && payload[..actualSize] == data && link.inbox == Calls(more)
    ensures link.station.delivered == old(link.station.delivered) + [(q, data)]
  {
    ghost var all := Fragments(q, data, cap, FragmentCount(|data|, cap));
    var heard := ReadScript(reader, all + more);
    FlightFirst(q, data, cap, more);
    FragmentsBounded(q, data, cap, more);
    FoundBounded(heard);
    link.inbox := heard;
    ok, actualSize := DeliverFlight(link, payload, q, data, cap, Calls(more));
  }

  /** The same from the first byte on: a new reader, whose first read delivers at least four bytes. */
  method DeliverBytes(mtu: nat, answers: seq<DatalinkStream.ReadResult>, link: Link, payload: array<byte>,
    ghost q: u32, ghost data: seq<byte>, ghost cap: Capacity, ghost more: seq<Frame>)
    returns (ok: bool, actualSize: nat)
    requires IsPacket(data) && |data| <= payload.Length
    requires DatalinkStream.AllWellSized(more) && forall f <- more :: Bounded(f)
    requires DatalinkStream.Delivered(answers) == PacketStream(q, data, cap, more)
    requires DatalinkStream.Steady(answers) && DatalinkStream.Opening(answers) >= 4
    requires var m := if mtu == 0 then 256 else if mtu > MAX_FRAME_SIZE then MAX_FRAME_SIZE else mtu;
      forall a <- answers :: a.Data? ==> |a.bytes| <= m
    requires link.Valid() && link.open && link.verdicts == []
    modifies link, payload
    ensures link.Valid() && actualSize <= payload.Length
    ensures ok && payload[..actualSize] == data && link.inbox == Calls(more)
    ensures link.station.delivered == old(link.station.delivered) + [(q, data)]
  {
    FragmentsWellSized(q, data, cap, more);
    var reader := new DatalinkStream.StreamReader(mtu, answers);
    assert reader.rx[..][..0] + DatalinkStream.Delivered(answers) == DatalinkStream.Delivered(answers);
    ok, actualSize := DeliverFrom(reader, link, payload, q, data, cap, more);
  }
}
