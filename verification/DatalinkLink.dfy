/** ac_datalink_send_packet and ac_datalink_receive_packet as loops, proved to be runs of a station. */
module DatalinkLink {
  import opened Wrappers
  import opened Bytes
  import opened DatalinkFrame
  import opened DatalinkPacket
  import opened DatalinkArq

  // ---- a station and its device ----------------------------------------------------------------

  /** What the next reads and writes of the device will bring, and every frame written to it. */
  datatype Machine = Machine(
    station: Station,
    inbox: seq<Option<Frame>>,
    verdicts: seq<bool>,
    outbox: seq<Frame>)

  /** A read past the script finds nothing; a write past it succeeds. */
  function Heard(inbox: seq<Option<Frame>>): Option<Frame> {
    if inbox == [] then None else inbox[0]
  }

  function Verdict(verdicts: seq<bool>): bool {
    verdicts == [] || verdicts[0]
  }

  function Rest<T>(s: seq<T>): (r: seq<T>)
    ensures |r| == if s == [] then 0 else |s| - 1
  {
    if s == [] then [] else s[1..]
  }

  predicate Ready(s: Station) {
    s.call.Idle? || (HasFragment(s) && s.call.attempt <= MAX_RETRIES) || Listening(s)
  }

  predicate InboxBounded(inbox: seq<Option<Frame>>) {
    inbox == [] || ((inbox[0].Some? ==> Bounded(inbox[0].value)) && InboxBounded(inbox[1..]))
  }

  predicate Working(m: Machine) {
    Ready(m.station) && InboxBounded(m.inbox)
  }

  function NextAction(m: Machine): (a: Action)
    requires Working(m) && !m.station.call.Idle?
    ensures Enabled(m.station, a)
  {
    var c := m.station.call;
    if !c.Sending? then Arrive(Heard(m.inbox), Verdict(m.verdicts))
    else if c.waiting then Reply(Heard(m.inbox))
    else Write(Verdict(m.verdicts))
  }

  /** The frame an action writes. */
  function Written(s: Station, a: Action): seq<Frame>
    requires Enabled(s, a)
  {
    match a
    case Write(_) => [Fragment(s.call.q, s.call.data, s.cap, s.call.index)]
    case Arrive(Some(f), _) =>
      var reaction := if s.call.First? then OnFirst(s.call.buffer, f)
        else OnNext(s.call.first, s.call.expected, s.call.buffer, f);
      if reaction.Accept? then [Answer(f, true)] else if reaction.Reject? then [Answer(f, false)] else []
    case _ => []
  }

  function Pulse(m: Machine): (r: Machine)
    requires Working(m) && !m.station.call.Idle?
    ensures Working(r)
  {
    var a := NextAction(m);
    var written := Written(m.station, a);
    Machine(Step(m.station, a), if a.Write? then m.inbox else Rest(m.inbox),
      if written == [] then m.verdicts else Rest(m.verdicts), m.outbox + written)
  }

  function FragmentsLeft(s: Station): int {
    if HasFragment(s) then FragmentCount(|s.call.data|, s.cap) - s.call.index else 0
  }

  /** A call that is running comes to its end. */
  function Drive(m: Machine): (r: Machine)
    requires Working(m)
    ensures Working(r) && r.station.call.Idle?
    decreases m.station.call.Sending?, FragmentsLeft(m.station),
      if m.station.call.Sending? then MAX_RETRIES + 1 - m.station.call.attempt else 0,
      m.station.call.Sending? && !m.station.call.waiting, |m.inbox|, !m.station.call.Idle?, 1
  {
    if m.station.call.Idle? then m else DriveOn(m)
  }

  /** One action of the call, and the others behind it. */
  function DriveOn(m: Machine): (r: Machine)
    requires Working(m) && !m.station.call.Idle?
    ensures Working(r) && r.station.call.Idle?
    decreases m.station.call.Sending?, FragmentsLeft(m.station),
      if m.station.call.Sending? then MAX_RETRIES + 1 - m.station.call.attempt else 0,
      m.station.call.Sending? && !m.station.call.waiting, |m.inbox|, !m.station.call.Idle?, 0
  {
    Drive(Pulse(m))
  }

  lemma DriveUnfolds(m: Machine)
    requires Working(m) && !m.station.call.Idle?
    ensures Drive(Pulse(m)) == Drive(m)
  {
    assert Drive(m) == DriveOn(m);
  }

  /** One attempt: the fragment is written and, unless that failed, one frame is read and looked at. */
  function Attempt(m: Machine): (r: Machine)
    requires Working(m) && m.station.call.Sending? && !m.station.call.waiting
    ensures Working(r)
  {
    if Verdict(m.verdicts) then Pulse(Pulse(m)) else Pulse(m)
  }

  lemma AttemptDrives(m: Machine)
    requires Working(m) && m.station.call.Sending? && !m.station.call.waiting
    ensures Drive(Attempt(m)) == Drive(m)
  {
    DriveUnfolds(m);
    if Verdict(m.verdicts) {
      DriveUnfolds(Pulse(m));
    }
  }

  function Submitted(m: Machine, data: seq<byte>): Machine
    requires Enabled(m.station, Submit(data))
  {
    m.(station := Step(m.station, Submit(data)))
  }

  function Listened(m: Machine, buffer: seq<byte>): Machine
    requires m.station.call.Idle?
  {
    m.(station := Step(m.station, Listen(buffer)))
  }

  // ---- the loops -------------------------------------------------------------------------------

  /** memcpy of a payload to its place. */
  method CopyAt(target: array<byte>, f: Frame)
    requires f.fragmentOffset + |f.payload| <= target.Length
    modifies target
    ensures target[..] == Store(old(target[..]), f)
  {
    for i := 0 to |f.payload|
      invariant forall k :: 0 <= k < i ==> target[f.fragmentOffset + k] == f.payload[k]
      invariant forall k :: 0 <= k < target.Length && !(f.fragmentOffset <= k < f.fragmentOffset + i) ==>
        target[k] == old(target[k])
    {
      target[f.fragmentOffset + i] := f.payload[i];
    }
    StoreIs(old(target[..]), f, target[..]);
  }

  lemma StoreIs(was: seq<byte>, f: Frame, now: seq<byte>)
    requires f.fragmentOffset + |f.payload| <= |was| == |now|
    requires forall k :: 0 <= k < |f.payload| ==> now[f.fragmentOffset + k] == f.payload[k]
    requires forall k :: 0 <= k < |was| && !(f.fragmentOffset <= k < f.fragmentOffset + |f.payload|) ==>
      now[k] == was[k]
    ensures now == Store(was, f)
  {
    forall k | 0 <= k < |was|
      ensures now[k] == Store(was, f)[k]
    {
      if f.fragmentOffset <= k < f.fragmentOffset + |f.payload| {
        assert now[f.fragmentOffset + (k - f.fragmentOffset)] == f.payload[k - f.fragmentOffset];
      }
    }
  }

  /** A receive call that waits for its first frame passes over one without data. */
  lemma SkipDrives(m: Machine)
    requires Working(m) && m.station.call.First? && Listening(m.station)
    requires m.inbox != [] && m.inbox[0].Some? && !IsData(m.inbox[0].value)
    ensures var r := m.(inbox := m.inbox[1..]); Working(r) && Drive(r) == Drive(m)
  {
    assert Pulse(m) == m.(inbox := m.inbox[1..]);
  }

  function Copies(f: Frame, n: nat): seq<Frame> {
    if n == 0 then [] else Copies(f, n - 1) + [f]
  }

  lemma OneMoreCopy(before: seq<Frame>, frame: Frame, n: nat)
    ensures before + Copies(frame, n) + [frame] == before + Copies(frame, n + 1)
  {
    Regroup(before, Copies(frame, n), [frame]);
  }

  class Link {
    var mtu: nat
    var open: bool
    var nextLinkSequence: u32
    var txPackets: nat
    var rxPackets: nat
    var retries: nat
    var inbox: seq<Option<Frame>>
    var verdicts: seq<bool>
    var outbox: seq<Frame>
    ghost var station: Station

    /** The fields agree with the station, except for the count of packets sent. */
    ghost predicate Linked()
      reads this
    {
      && (HEADER_SIZE < EffectiveMtu() ==> station.cap == EffectiveMtu() - HEADER_SIZE)
      && station.nextSequence == nextLinkSequence && |station.delivered| == rxPackets && Synced()
    }

    ghost predicate Synced()
      reads this
    {
      station.retries == retries && InboxBounded(inbox)
    }

    ghost predicate Valid()
      reads this
    {
      Linked() && |station.sent| == txPackets && station.call.Idle?
    }

    /** ac_datalink_init, for a device that reports this MTU and can be opened or not. */
    constructor (mtu: nat, open: bool, inbox: seq<Option<Frame>>, verdicts: seq<bool>)
      requires InboxBounded(inbox)
      ensures Valid() && this.open == open && station == Fresh(station.cap)
      ensures this.inbox == inbox && this.verdicts == verdicts && outbox == []
    {
      this.mtu, this.open, nextLinkSequence := if mtu == 0 then 256 else mtu, open, 1;
      txPackets, rxPackets, retries := 0, 0, 0;
      this.inbox, this.verdicts, outbox := inbox, verdicts, [];
      var m := if mtu == 0 then 256 else if mtu > MAX_FRAME_SIZE then MAX_FRAME_SIZE else mtu;
      station := Fresh(if m > HEADER_SIZE then m - HEADER_SIZE else 1);
    }

    ghost function State(): Machine
      reads this
    {
      Machine(station, inbox, verdicts, outbox)
    }

    function EffectiveMtu(): nat
      reads this
    {
      if mtu == 0 then 256 else if mtu > MAX_FRAME_SIZE then MAX_FRAME_SIZE else mtu
    }

    /** The device's write: the frame may have gone out even when it reports failure. */
    method WriteFrame(f: Frame) returns (ok: bool)
      modifies this`verdicts, this`outbox
      ensures ok == Verdict(old(verdicts)) && verdicts == Rest(old(verdicts))
      ensures outbox == old(outbox) + [f]
    {
      ok := Verdict(verdicts);
      verdicts := Rest(verdicts);
      outbox := outbox + [f];
    }

    /** ac_datalink_read_frame, whose buffering is the subject of DatalinkStream. */
    method ReadFrame() returns (f: Option<Frame>)
      modifies this`inbox
      ensures f == Heard(old(inbox)) && inbox == Rest(old(inbox))
    {
      f := Heard(inbox);
      inbox := Rest(inbox);
    }

    /** The frame for one fragment, cut out of the payload. */
    method Cut(payload: seq<byte>, cap: Capacity, linkSequence: u32, index: nat, count: nat) returns (frame: Frame)
      requires IsPacket(payload) && count == FragmentCount(|payload|, cap) && index < count
      ensures frame == Fragment(linkSequence, payload, cap, index)
    {
      var offset := index * cap;
      FragmentPlace(payload, cap, index);
      var size := if |payload| > offset then |payload| - offset else 0;
      if size > cap {
        size := cap;
      }
      assert (index + 1) * cap == offset + cap;
      var flags := if index + 1 == count then FLAG_DATA + FLAG_END else FLAG_DATA;
      frame := Frame(flags, linkSequence, |payload|, offset, index, count, payload[offset..offset + size]);
    }

    /** Nothing but the progress of the send under way has changed. */
    twostate predicate OnlySendMoved()
      reads this
    {
      station == old(station).(call := station.call, retries := station.retries, wire := station.wire,
        sent := station.sent)
    }

    /** The fragment was acknowledged: on to the next one, or the packet is sent. */
    ghost predicate Advanced(before: Station, frame: Frame)
      requires before.call.Sending?
      reads this
    {
      if before.call.index + 1 == frame.fragmentCount then
        station.call.Idle? && station.sent == before.sent + [frame.linkSequence]
      else
        station.call == before.call.(index := before.call.index + 1, attempt := 0) && station.sent == before.sent
    }

    /** Writes the fragment, reads one frame and tells whether it acknowledges the fragment. */
    method TryFragment(frame: Frame, index: nat) returns (written: bool, delivered: bool)
      requires Synced() && HasFragment(station) && !station.call.waiting
      requires station.call.attempt <= MAX_RETRIES
      requires station.call.q == frame.linkSequence && station.call.index == index
      requires frame == Fragment(station.call.q, station.call.data, station.cap, index)
      modifies this`retries, this`inbox, this`verdicts, this`outbox, this`station
      ensures Synced() && State() == Attempt(old(State())) && OnlySendMoved()
      ensures outbox == old(outbox) + [frame]
      ensures !written ==> !delivered && station.call.Idle?
      ensures !delivered ==> station.sent == old(station.sent)
      ensures written && !delivered ==> station.call == if old(station.call.attempt) >= MAX_RETRIES then Idle
        else old(station.call).(attempt := old(station.call.attempt) + 1)
      ensures delivered ==> Advanced(old(station), frame)
    {
      delivered := false;
      ghost var m := State();
      written := WriteFrame(frame);
      station := Pulse(m).station;
      if !written {
        return;
      }
      m := State();
      var ack := ReadFrame();
      station := Pulse(m).station;
      if ack.Some? && ack.value.linkSequence == frame.linkSequence && ack.value.fragmentIndex == index
        && IsAck(ack.value) {
        delivered := true;
      } else if ack.None? || IsNak(ack.value) {
        retries := retries + 1;
      }
    }

    /** The attempt is a part of the run of the call. */
    method TryOnce(frame: Frame, index: nat) returns (written: bool, delivered: bool)
      requires Synced() && HasFragment(station) && !station.call.waiting
      requires station.call.attempt <= MAX_RETRIES
      requires station.call.q == frame.linkSequence && station.call.index == index
      requires frame == Fragment(station.call.q, station.call.data, station.cap, index)
      modifies this`retries, this`inbox, this`verdicts, this`outbox, this`station
      ensures Synced() && Working(State()) && Drive(State()) == Drive(old(State())) && OnlySendMoved()
      ensures outbox == old(outbox) + [frame]
      ensures !written ==> !delivered && station.call.Idle?
      ensures !delivered ==> station.sent == old(station.sent)
      ensures written && !delivered ==> station.call == if old(station.call.attempt) >= MAX_RETRIES then Idle
        else old(station.call).(attempt := old(station.call.attempt) + 1)
      ensures delivered ==> Advanced(old(station), frame)
    {
      AttemptDrives(State());
      written, delivered := TryFragment(frame, index);
    }

    /** One fragment, written up to four times, each time looking for its acknowledgement in the next frame. */
    method SendFragment(frame: Frame, index: nat) returns (delivered: bool, ghost copies: nat)
      requires Synced() && HasFragment(station) && !station.call.waiting && station.call.attempt == 0
      requires station.call.q == frame.linkSequence && station.call.index == index
      requires frame == Fragment(station.call.q, station.call.data, station.cap, index)
      modifies this`retries, this`inbox, this`verdicts, this`outbox, this`station
      ensures Synced() && Working(State()) && Drive(old(State())) == Drive(State())
      ensures copies <= MAX_RETRIES + 1 && outbox == old(outbox) + Copies(frame, copies) && OnlySendMoved()
      ensures delivered ==> Advanced(old(station), frame)
      ensures !delivered ==> station.call.Idle? && station.sent == old(station.sent)
    {
      delivered, copies := false, 0;
      var attempt := 0;
      while attempt <= MAX_RETRIES
        invariant 0 <= attempt <= MAX_RETRIES + 1 && Synced() && !delivered
        invariant Working(State()) && Drive(old(State())) == Drive(State())
        invariant copies == attempt && outbox == old(outbox) + Copies(frame, copies)
        invariant OnlySendMoved() && station.sent == old(station.sent)
        invariant station.call == if attempt > MAX_RETRIES then Idle else old(station.call).(attempt := attempt)
      {
        OneMoreCopy(old(outbox), frame, attempt);
        var written;
        written, delivered := TryOnce(frame, index);
        copies := attempt + 1;
        if !written || delivered {
          return;
        }
        attempt := attempt + 1;
      }
    }

    /** All the fragments in order, until one is not delivered. */
    method SendFragments(payload: seq<byte>, cap: Capacity, linkSequence: u32) returns (ok: bool)
      requires Synced() && Working(State()) && IsPacket(payload) && station.cap == cap
      requires station.call == Sending(linkSequence, payload, 0, 0, false)
      modifies this`retries, this`inbox, this`verdicts, this`outbox, this`station
      ensures Synced() && State() == Drive(old(State())) && OnlySendMoved()
      ensures station.sent == old(station.sent) + if ok then [linkSequence] else []
    {
      var count := FragmentCount(|payload|, cap);
      for index := 0 to count
        invariant Synced() && Working(State()) && Drive(old(State())) == Drive(State()) && OnlySendMoved()
        invariant index < count ==> station.sent == old(station.sent)
        invariant index < count ==> station.call == Sending(linkSequence, payload, index, 0, false)
        invariant index == count ==> station.call.Idle? && station.sent == old(station.sent) + [linkSequence]
      {
        var frame := Cut(payload, cap, linkSequence, index, count);
        var delivered, _ := SendFragment(frame, index);
        if !delivered {
          return false;
        }
      }
      ok := true;
    }

    /** A send whose packet fits: it takes the next link sequence and counts when it succeeds. */
    method Transmit(payload: seq<byte>, cap: Capacity) returns (ok: bool)
      requires Valid() && nextLinkSequence !in station.packets && IsPacket(payload) && station.cap == cap
      modifies this`nextLinkSequence, this`txPackets, this`retries
      modifies this`inbox, this`verdicts, this`outbox, this`station
      ensures Valid() && State() == Drive(Submitted(old(State()), payload))
      ensures station.sent == old(station.sent) + if ok then [old(nextLinkSequence)] else []
    {
      var linkSequence := nextLinkSequence;
      nextLinkSequence := (nextLinkSequence + 1) % 0x1_0000_0000;
      station := Submitted(State(), payload).station;
      ok := SendFragments(payload, cap, linkSequence);
      if ok {
        txPackets := txPackets + 1;
      }
      assert Linked();
    }

    /** ac_datalink_send_packet is the run of the station's send, and says truly how it ended. */
    method SendPacket(payload: seq<byte>) returns (ok: bool)
      requires Valid() && nextLinkSequence !in station.packets
      modifies this`nextLinkSequence, this`txPackets, this`retries
      modifies this`inbox, this`verdicts, this`outbox, this`station
      ensures Valid()
      ensures !open || !IsPacket(payload) || EffectiveMtu() <= HEADER_SIZE ==> !ok && State() == old(State())
      ensures open && IsPacket(payload) && EffectiveMtu() > HEADER_SIZE ==>
        State() == Drive(Submitted(old(State()), payload))
      ensures station.sent == old(station.sent) + if ok then [old(nextLinkSequence)] else []
    {
      if !open || |payload| > MAX_PACKET_SIZE {
        return false;
      }
      var mtu := EffectiveMtu();
      if mtu <= HEADER_SIZE {
        return false;
      }
      ok := Transmit(payload, mtu - HEADER_SIZE);
    }

    /** ac_datalink_send_ack. */
    method SendAck(f: Frame, good: bool) returns (ok: bool)
      modifies this`verdicts, this`outbox
      ensures ok == Verdict(old(verdicts)) && verdicts == Rest(old(verdicts))
      ensures outbox == old(outbox) + [Answer(f, good)]
    {
      ok := WriteFrame(Frame(if good then FLAG_ACK else FLAG_NAK, f.linkSequence, f.transportSize,
        f.fragmentOffset, f.fragmentIndex, f.fragmentCount, []));
    }

    /** The state before the frame just read was read. */
    ghost function Unread(f: Option<Frame>): Machine
      reads this
    {
      State().(inbox := [f] + inbox)
    }

    /** Reads up to and including the first DATA frame. */
    method AwaitData(payload: array<byte>) returns (first: Option<Frame>)
      requires Synced() && station.call == First(payload[..]) && Listening(station)
      modifies this`inbox, this`station
      ensures Synced() && Working(State()) && station == old(station).(call := station.call)
      ensures first.None? ==> station.call.Idle? && Drive(State()) == Drive(old(State()))
      ensures first.Some? ==> IsData(first.value) && station == old(station)
      ensures first.Some? ==> Working(Unread(first)) && Drive(Unread(first)) == Drive(old(State()))
    {
      while true
        invariant Synced() && station == old(station) && Drive(State()) == Drive(old(State()))
        decreases |inbox|
      {
        ghost var m := State();
        first := ReadFrame();
        if first.None? {
          DriveUnfolds(m);
          station := Pulse(m).station;
          return;
        }
        if IsData(first.value) {
          assert m == Unread(first);
          return;
        }
        SkipDrives(m);
      }
    }

    /** Where a receive call stands once it has stored the fragments below expected. */
    ghost predicate Receiving(first: Frame, expected: nat, buffer: seq<byte>, before: seq<(u32, seq<byte>)>)
      requires first.transportSize <= |buffer|
      reads this
    {
      if expected < first.fragmentCount then
        Listening(station) && station.call == Next(first, expected, buffer) && station.delivered == before
      else
        station.call.Idle? && station.delivered == before + [(first.linkSequence, buffer[..first.transportSize])]
    }

    twostate predicate OnlyReceiveMoved()
      reads this
    {
      station == old(station).(call := station.call, retries := station.retries, wire := station.wire,
        calls := station.calls, delivered := station.delivered)
    }

    /** One fragment after the first: stored and acknowledged, or the call is over. */
    method TakeFragment(payload: array<byte>, first: Frame, expected: nat, ghost before: seq<(u32, seq<byte>)>)
      returns (ok: bool)
      requires Synced()
      requires first.transportSize <= payload.Length && expected < first.fragmentCount
      requires Receiving(first, expected, payload[..], before)
      modifies this`retries, this`inbox, this`verdicts, this`outbox, this`station, payload
      ensures Synced() && OnlyReceiveMoved()
      ensures State() == Pulse(old(State()))
      ensures if ok then Receiving(first, expected + 1, payload[..], before)
        else station.call.Idle? && station.delivered == before
    {
      ghost var m := State();
      var frame := ReadFrame();
      if frame.None? {
        station := Pulse(m).station;
        return false;
      }
      var f := frame.value;
      if !IsData(f) || f.linkSequence != first.linkSequence || f.fragmentIndex != expected
        || f.transportSize != first.transportSize || f.fragmentOffset + |f.payload| > payload.Length {
        var _ := SendAck(f, false);
        retries := retries + 1;
        station := Pulse(m).station;
        return false;
      }
      CopyAt(payload, f);
      ok := SendAck(f, true);
      station := Pulse(m).station;
    }

    /** The fragments after the first. */
    method Continue(payload: array<byte>, first: Frame, ghost before: seq<(u32, seq<byte>)>) returns (ok: bool)
      requires InboxBounded(inbox) && first.transportSize <= payload.Length && 1 <= first.fragmentCount
      requires station.retries == retries && Receiving(first, 1, payload[..], before)
      modifies this`retries, this`inbox, this`verdicts, this`outbox, this`station, payload
      ensures Synced() && OnlyReceiveMoved()
      ensures State() == Drive(old(State()))
      ensures if ok then Receiving(first, first.fragmentCount, payload[..], before)
        else station.call.Idle? && station.delivered == before
    {
      for expected := 1 to first.fragmentCount
        invariant Synced() && OnlyReceiveMoved()
        invariant Receiving(first, expected, payload[..], before)
        invariant Drive(old(State())) == Drive(State())
      {
        DriveUnfolds(State());
        ok := TakeFragment(payload, first, expected, before);
        if !ok {
          return;
        }
      }
      ok := true;
    }

    /** The first fragment: stored and acknowledged, or the call is over. */
    method TakeFirst(payload: array<byte>, f: Frame) returns (ok: bool)
      requires Synced() && IsData(f) && Bounded(f)
      requires Listening(station) && station.call == First(payload[..])
      modifies this`verdicts, this`outbox, this`station, payload
      ensures Synced() && OnlyReceiveMoved()
      ensures State() == Pulse(old(Unread(Some(f))))
      ensures if ok then 1 <= f.fragmentCount && f.transportSize <= payload.Length
          && Receiving(f, 1, payload[..], old(station.delivered))
        else station.call.Idle? && station.delivered == old(station.delivered)
    {
      ghost var m := Unread(Some(f));
      if f.fragmentOffset != 0 || f.fragmentCount == 0 || f.transportSize > payload.Length
        || f.transportSize > MAX_PACKET_SIZE || |f.payload| > f.transportSize {
        station := Pulse(m).station;
        return false;
      }
      CopyAt(payload, f);
      ok := SendAck(f, true);
      station := Pulse(m).station;
    }

    /** A whole receive call, from its first read; the frame returned opened the packet delivered. */
    method Collect(payload: array<byte>) returns (packet: Option<Frame>)
      requires Synced() && Listening(station) && station.call == First(payload[..])
      modifies this`retries, this`inbox, this`verdicts, this`outbox, this`station, payload
      ensures Synced() && OnlyReceiveMoved()
      ensures State() == Drive(old(State())) && station.call.Idle?
      ensures packet.None? ==> station.delivered == old(station.delivered)
      ensures packet.Some? ==> packet.value.transportSize <= payload.Length
      ensures packet.Some? ==>
        Receiving(packet.value, packet.value.fragmentCount, payload[..], old(station.delivered))
    {
      packet := AwaitData(payload);
      if packet.Some? {
        DriveUnfolds(Unread(packet));
        var ok := TakeFirst(payload, packet.value);
        if ok {
          ok := Continue(payload, packet.value, old(station.delivered));
        }
        if !ok {
          packet := None;
        }
      }
    }

    /** ac_datalink_receive_packet is the run of the station's receive; what it leaves in the caller's buffer
        when it returns 0 is what the station delivers. */
    method ReceivePacket(payload: array<byte>) returns (ok: bool, actualSize: nat, ghost q: u32)
      requires Valid()
      modifies this`retries, this`rxPackets, this`inbox, this`verdicts, this`outbox, this`station, payload
      ensures Valid() && (!open ==> !ok && State() == old(State()))
      ensures open ==> State() == Drive(Listened(old(State()), old(payload[..])))
      ensures actualSize <= payload.Length
      ensures if ok then station.delivered == old(station.delivered) + [(q, payload[..actualSize])]
        else actualSize == 0 && station.delivered == old(station.delivered)
    {
      ok, actualSize, q := false, 0, 0;
      if open {
        station := Listened(State(), payload[..]).station;
        var packet := Collect(payload);
        if packet.Some? {
          ok, actualSize, q := true, packet.value.transportSize, packet.value.linkSequence;
          rxPackets := rxPackets + 1;
        }
        assert Linked() && |station.sent| == txPackets;
      }
    }
  }

  // ---- calls inside a world of two stations ----------------------------------------------------

  /** Every frame the device will bring is one the peer has written. */
  ghost predicate FromWire(inbox: seq<Option<Frame>>, p: Station) {
    forall i | 0 <= i < |inbox| :: inbox[i].Some? ==> inbox[i].value in p.wire
  }

  function With(w: World, onLeft: bool, s: Station): World {
    if onLeft then w.(left := s) else w.(right := s)
  }

  /** Driving a call is a run: it leads from a reachable world to a reachable world. */
  lemma {:induction false} DriveReaches(w: World, onLeft: bool, m: Machine)
    requires Reachable(w) && m.station == Here(w, onLeft) && Working(m) && FromWire(m.inbox, There(w, onLeft))
    ensures Reachable(With(w, onLeft, Drive(m).station))
    decreases m.station.call.Sending?, FragmentsLeft(m.station),
      if m.station.call.Sending? then MAX_RETRIES + 1 - m.station.call.attempt else 0,
      m.station.call.Sending? && !m.station.call.waiting, |m.inbox|, !m.station.call.Idle?
  {
    if !m.station.call.Idle? {
      var e := Event(onLeft, NextAction(m));
      ReachableNext(w, e);
      DriveReaches(Happen(w, e), onLeft, Pulse(m));
      DriveUnfolds(m);
    }
  }

  /** What a receive call hands over is one packet of the peer, unmixed and complete. */
  lemma ReceiveIntegrity(w: World, onLeft: bool, m: Machine, buffer: seq<byte>, q: u32, bytes: seq<byte>)
    requires Reachable(w) && m.station == Here(w, onLeft) && m.station.call.Idle?
    requires InboxBounded(m.inbox) && FromWire(m.inbox, There(w, onLeft))
    requires Drive(Listened(m, buffer)).station.delivered == m.station.delivered + [(q, bytes)]
    ensures q in There(w, onLeft).packets && There(w, onLeft).packets[q] == bytes
  {
    ReachableNext(w, Event(onLeft, Listen(buffer)));
    var v := Happen(w, Event(onLeft, Listen(buffer)));
    DriveReaches(v, onLeft, Listened(m, buffer));
    Integrity(With(v, onLeft, Drive(Listened(m, buffer)).station), onLeft, |m.station.delivered|);
  }

  /** The fragments of a packet from the n-th on, as reads. */
  function InFlight(q: u32, data: seq<byte>, cap: Capacity, n: nat): seq<Option<Frame>>
    requires IsPacket(data) && n <= FragmentCount(|data|, cap)
    decreases FragmentCount(|data|, cap) - n
  {
    if n == FragmentCount(|data|, cap) then [] else [Some(Fragment(q, data, cap, n))] + InFlight(q, data, cap, n + 1)
  }

  ghost predicate Holding(m: Machine, q: u32, data: seq<byte>, cap: Capacity, n: nat, buffer: seq<byte>)
    requires IsPacket(data)
  {
    && Working(m) && m.verdicts == [] && n <= FragmentCount(|data|, cap) && |data| <= |buffer|
    && buffer[..Offset(|data|, cap, n)] == data[..Offset(|data|, cap, n)]
  }

  /** What storing fragment n makes of a receive call that holds the n before it. */
  ghost predicate Took(m: Machine, r: Machine, q: u32, data: seq<byte>, cap: Capacity, n: nat, buffer: seq<byte>)
    requires IsPacket(data) && n < FragmentCount(|data|, cap)
  {
    && r.verdicts == [] && r.outbox == m.outbox + [Answer(Fragment(q, data, cap, n), true)]
    && if n + 1 < FragmentCount(|data|, cap) then
        r.station.call == Next(Fragment(q, data, cap, 0), n + 1, buffer)
        && r.station.delivered == m.station.delivered
      else
        r.station.call.Idle? && |data| <= |buffer|
        && r.station.delivered == m.station.delivered + [(q, buffer[..|data|])]
  }

  lemma TakeNext(m: Machine, q: u32, data: seq<byte>, cap: Capacity, n: nat, rest: seq<Option<Frame>>)
    returns (buffer: seq<byte>)
    requires IsPacket(data) && 0 < n < FragmentCount(|data|, cap) && m.station.call.Next?
    requires Listening(m.station) && Holding(m, q, data, cap, n, m.station.call.buffer)
    requires m.station.call == Next(Fragment(q, data, cap, 0), n, m.station.call.buffer)
    requires m.inbox == [Some(Fragment(q, data, cap, n))] + rest
    ensures Pulse(m).inbox == rest && Took(m, Pulse(m), q, data, cap, n, buffer)
    ensures Holding(Pulse(m), q, data, cap, n + 1, buffer)
  {
    var f := Fragment(q, data, cap, n);
    StoreNext(m.station.call.buffer, q, data, cap, n);
    buffer := Store(m.station.call.buffer, f);
    assert OnNext(m.station.call.first, n, m.station.call.buffer, f) == Accept(buffer);
  }

  lemma TakeFirstFragment(m: Machine, q: u32, data: seq<byte>, cap: Capacity, rest: seq<Option<Frame>>)
    returns (buffer: seq<byte>)
    requires IsPacket(data) && m.station.call.First? && Listening(m.station)
    requires Holding(m, q, data, cap, 0, m.station.call.buffer)
    requires m.inbox == [Some(Fragment(q, data, cap, 0))] + rest
    ensures Pulse(m).inbox == rest && Took(m, Pulse(m), q, data, cap, 0, buffer)
    ensures Holding(Pulse(m), q, data, cap, 1, buffer)
  {
    var f := Fragment(q, data, cap, 0);
    StoreNext(m.station.call.buffer, q, data, cap, 0);
    buffer := Store(m.station.call.buffer, f);
    assert OnFirst(m.station.call.buffer, f) == Accept(buffer);
  }

  lemma InboxSplit(q: u32, data: seq<byte>, cap: Capacity, n: nat, rest: seq<Option<Frame>>)
    requires IsPacket(data) && n < FragmentCount(|data|, cap)
    ensures InFlight(q, data, cap, n) + rest
      == [Some(Fragment(q, data, cap, n))] + (InFlight(q, data, cap, n + 1) + rest)
  {}

  lemma {:induction false} ReceiveRest(m: Machine, q: u32, data: seq<byte>, cap: Capacity, n: nat,
    buffer: seq<byte>, rest: seq<Option<Frame>>)
    requires IsPacket(data) && 0 < n <= FragmentCount(|data|, cap) && Holding(m, q, data, cap, n, buffer)
    requires n < FragmentCount(|data|, cap) ==>
      Listening(m.station) && m.station.call == Next(Fragment(q, data, cap, 0), n, buffer)
    requires n == FragmentCount(|data|, cap) ==> m.station.call.Idle?
    requires m.inbox == InFlight(q, data, cap, n) + rest
    ensures Drive(m).inbox == rest && Drive(m).verdicts == []
    ensures Drive(m).station.delivered == m.station.delivered
      + if n < FragmentCount(|data|, cap) then [(q, data)] else []
    decreases FragmentCount(|data|, cap) - n
  {
    if n < FragmentCount(|data|, cap) {
      InboxSplit(q, data, cap, n, rest);
      var next := TakeNext(m, q, data, cap, n, InFlight(q, data, cap, n + 1) + rest);
      DriveUnfolds(m);
      LastOffset(|data|, cap);
      assert data[..|data|] == data;
      ReceiveRest(Pulse(m), q, data, cap, n + 1, next, rest);
    }
  }

  /** On a wire that brings the fragments of a packet in order, the receiver delivers exactly that packet into
      any buffer large enough, and consumes exactly its fragments. */
  lemma CleanReceive(m: Machine, q: u32, data: seq<byte>, cap: Capacity, buffer: seq<byte>, rest: seq<Option<Frame>>)
    requires IsPacket(data) && |data| <= |buffer|
    requires m.station.call.Idle? && InboxBounded(m.inbox) && m.verdicts == []
    requires m.inbox == InFlight(q, data, cap, 0) + rest
    ensures var r := Drive(Listened(m, buffer));
      r.inbox == rest && r.station.delivered == m.station.delivered + [(q, data)]
  {
    var l := Listened(m, buffer);
    assert buffer[..Offset(|data|, cap, 0)] == data[..Offset(|data|, cap, 0)] == [];
    InboxSplit(q, data, cap, 0, rest);
    var next := TakeFirstFragment(l, q, data, cap, InFlight(q, data, cap, 1) + rest);
    DriveUnfolds(l);
    LastOffset(|data|, cap);
    assert data[..|data|] == data;
    ReceiveRest(Pulse(l), q, data, cap, 1, next, rest);
  }

  /** The acknowledgements of the fragments from the n-th on, as reads. */
  function Acks(q: u32, data: seq<byte>, cap: Capacity, n: nat): seq<Option<Frame>>
    requires IsPacket(data) && n <= FragmentCount(|data|, cap)
    decreases FragmentCount(|data|, cap) - n
  {
    if n == FragmentCount(|data|, cap) then []
    else [Some(Answer(Fragment(q, data, cap, n), true))] + Acks(q, data, cap, n + 1)
  }

  lemma Acknowledged(m: Machine, n: nat, rest: seq<Option<Frame>>)
    requires Working(m) && m.station.call.Sending? && !m.station.call.waiting && m.station.call.index == n
    requires var c, cap := m.station.call, m.station.cap;
      m.inbox == [Some(Answer(Fragment(c.q, c.data, cap, n), true))] + rest
    requires m.verdicts == []
    ensures var c, cap, r := m.station.call, m.station.cap, Attempt(m);
      && r.inbox == rest && r.verdicts == [] && r.outbox == m.outbox + [Fragment(c.q, c.data, cap, n)]
      && r.station.cap == cap
      && if n + 1 < FragmentCount(|c.data|, cap) then
          r.station.call == c.(index := n + 1, attempt := 0) && r.station.sent == m.station.sent
        else
          r.station.call.Idle? && r.station.sent == m.station.sent + [c.q]
  {}

  /** The send has written the fragments below n, and the acknowledgements of the others are to come. */
  ghost predicate SendsOn(m: Machine, q: u32, data: seq<byte>, n: nat, before: seq<Frame>, rest: seq<Option<Frame>>)
    requires IsPacket(data)
  {
    && Working(m) && n <= FragmentCount(|data|, m.station.cap) && m.verdicts == []
    && m.station.call == (if n < FragmentCount(|data|, m.station.cap) then Sending(q, data, n, 0, false) else Idle)
    && m.inbox == Acks(q, data, m.station.cap, n) + rest
    && m.outbox == before + Fragments(q, data, m.station.cap, n)
  }

  lemma SendsOnNext(m: Machine, q: u32, data: seq<byte>, n: nat, before: seq<Frame>, rest: seq<Option<Frame>>)
    requires IsPacket(data) && SendsOn(m, q, data, n, before, rest) && n < FragmentCount(|data|, m.station.cap)
    ensures SendsOn(Attempt(m), q, data, n + 1, before, rest) && Attempt(m).station.cap == m.station.cap
    ensures Attempt(m).station.sent == m.station.sent
      + if n + 1 == FragmentCount(|data|, m.station.cap) then [q] else []
  {
    var cap := m.station.cap;
    Regroup([Some(Answer(Fragment(q, data, cap, n), true))], Acks(q, data, cap, n + 1), rest);
    Regroup(before, Fragments(q, data, cap, n), [Fragment(q, data, cap, n)]);
    Acknowledged(m, n, Acks(q, data, cap, n + 1) + rest);
  }

  lemma NextSent(m: Machine, q: u32, data: seq<byte>, n: nat, before: seq<Frame>, rest: seq<Option<Frame>>)
    returns (a: Machine)
    requires IsPacket(data) && SendsOn(m, q, data, n, before, rest) && n < FragmentCount(|data|, m.station.cap)
    ensures SendsOn(a, q, data, n + 1, before, rest) && a.station.cap == m.station.cap && Drive(a) == Drive(m)
    ensures a.station.sent == m.station.sent + if n + 1 == FragmentCount(|data|, m.station.cap) then [q] else []
  {
    SendsOnNext(m, q, data, n, before, rest);
    AttemptDrives(m);
    a := Attempt(m);
  }

  lemma {:induction false} SendRest(m: Machine, q: u32, data: seq<byte>, n: nat,
    before: seq<Frame>, rest: seq<Option<Frame>>)
    requires IsPacket(data) && SendsOn(m, q, data, n, before, rest)
    ensures Drive(m).inbox == rest
    ensures Drive(m).outbox == before + Fragments(q, data, m.station.cap, FragmentCount(|data|, m.station.cap))
    ensures Drive(m).station.sent == m.station.sent
      + if n < FragmentCount(|data|, m.station.cap) then [q] else []
    decreases FragmentCount(|data|, m.station.cap) - n
  {
    if n < FragmentCount(|data|, m.station.cap) {
      var a := NextSent(m, q, data, n, before, rest);
      SendRest(a, q, data, n + 1, before, rest);
      SentOnce(m.station.sent, q, n + 1 == FragmentCount(|data|, m.station.cap));
    } else {
      IdleDrives(m);
    }
  }

  lemma IdleDrives(m: Machine)
    requires Working(m) && m.station.call.Idle?
    ensures Drive(m) == m
  {}

  lemma SentOnce(sent: seq<u32>, q: u32, last: bool)
    ensures (sent + if last then [q] else []) + (if last then [] else [q]) == sent + [q]
  {}

  lemma SendsOnFirst(m: Machine, data: seq<byte>, rest: seq<Option<Frame>>)
    requires m.station.call.Idle? && InboxBounded(m.inbox) && m.verdicts == [] && IsPacket(data)
    requires m.station.nextSequence !in m.station.packets
    requires m.inbox == Acks(m.station.nextSequence, data, m.station.cap, 0) + rest
    ensures SendsOn(Submitted(m, data), m.station.nextSequence, data, 0, m.outbox, rest)
  {}

  /** If every fragment is acknowledged at once, the send returns 0, having written each fragment exactly once. */
  lemma CleanSend(m: Machine, data: seq<byte>, rest: seq<Option<Frame>>)
    requires m.station.call.Idle? && InboxBounded(m.inbox) && m.verdicts == [] && IsPacket(data)
    requires m.station.nextSequence !in m.station.packets
    requires m.inbox == Acks(m.station.nextSequence, data, m.station.cap, 0) + rest
    ensures var r, q, cap := Drive(Submitted(m, data)), m.station.nextSequence, m.station.cap;
      && r.inbox == rest && r.station.sent == m.station.sent + [q]
      && r.outbox == m.outbox + Fragments(q, data, cap, FragmentCount(|data|, cap))
  {
    SendsOnFirst(m, data, rest);
    SendRest(Submitted(m, data), m.station.nextSequence, data, 0, m.outbox, rest);
  }
}
