/** The stop-and-wait protocol: two stations joined by a wire that loses, repeats, delays and reorders frames. */
module DatalinkArq {
  import opened Wrappers
  import opened Bytes
  import opened DatalinkFrame
  import opened DatalinkPacket

  const MAX_RETRIES := 3

  /** ac_datalink_send_ack: the header of the frame answered, without its payload. */
  function Answer(f: Frame, ok: bool): Frame {
    f.(flags := if ok then FLAG_ACK else FLAG_NAK, payload := [])
  }

  /** The 32-bit sum of offset and payload size does not wrap. */
  predicate Bounded(f: Frame) {
    f.fragmentOffset + |f.payload| < 0x1_0000_0000
  }

  // ---- one station -----------------------------------------------------------------------------

  /** What a receive call does with a frame. */
  datatype Reaction = Skip | Refuse | Reject | Accept(buffer: seq<byte>)

  /** The frame that may open a packet. */
  function OnFirst(buffer: seq<byte>, f: Frame): Reaction {
    if !IsData(f) then Skip
    else if f.fragmentOffset != 0 || f.fragmentCount == 0 then Refuse
    else if f.transportSize > |buffer| || f.transportSize > MAX_PACKET_SIZE then Refuse
    else if |f.payload| > f.transportSize then Refuse
    else Accept(Store(buffer, f))
  }

  /** The frame that must continue it. */
  function OnNext(first: Frame, expected: nat, buffer: seq<byte>, f: Frame): Reaction
    requires Bounded(f)
  {
    if !IsData(f) || f.linkSequence != first.linkSequence || f.fragmentIndex != expected
      || f.transportSize != first.transportSize || f.fragmentOffset + |f.payload| > |buffer| then Reject
    else Accept(Store(buffer, f))
  }

  /** Where a station is: between calls, sending a fragment, or receiving. */
  datatype Call =
    | Idle
    | Sending(q: u32, data: seq<byte>, index: nat, attempt: nat, waiting: bool)
    | First(buffer: seq<byte>)
    | Next(first: Frame, expected: nat, buffer: seq<byte>)

  /** A station and its history: the packets it was given, every frame it ever wrote, the frames each of its
      receive calls stored, the sequences of the sends that returned 0, and what its receive calls delivered. */
  datatype Station = Station(
    cap: Capacity,
    nextSequence: u32,
    retries: nat,
    call: Call,
    packets: map<u32, seq<byte>>,
    wire: set<Frame>,
    calls: seq<seq<Frame>>,
    sent: seq<u32>,
    delivered: seq<(u32, seq<byte>)>)

  /** A write may fail after the frame went out; a read may yield nothing. */
  datatype Action =
    | Submit(data: seq<byte>)
    | Write(ok: bool)
    | Reply(reply: Option<Frame>)
    | Listen(buffer: seq<byte>)
    | Arrive(frame: Option<Frame>, answered: bool)

  predicate HasFragment(s: Station) {
    s.call.Sending? && IsPacket(s.call.data) && s.call.index < FragmentCount(|s.call.data|, s.cap)
  }

  predicate Listening(s: Station) {
    |s.calls| > 0 && (s.call.First? || (s.call.Next? && s.call.first.transportSize <= |s.call.buffer|))
  }

  /** The action fits the state; a link sequence is not used twice. */
  predicate Enabled(s: Station, a: Action) {
    match a
    case Submit(data) => s.call.Idle? && s.nextSequence !in s.packets
    case Write(_) => HasFragment(s) && !s.call.waiting
    case Reply(_) => HasFragment(s) && s.call.waiting
    case Listen(_) => s.call.Idle?
    case Arrive(f, _) => Listening(s) && (f.Some? ==> Bounded(f.value))
  }

  function Step(s: Station, a: Action): Station
    requires Enabled(s, a)
  {
    match a
    case Submit(data) => SubmitStep(s, data)
    case Write(ok) =>
      var f := Fragment(s.call.q, s.call.data, s.cap, s.call.index);
      s.(wire := s.wire + {f}, call := if ok then s.call.(waiting := true) else Idle)
    case Reply(f) => ReplyStep(s, f)
    case Listen(buffer) => s.(call := First(buffer), calls := s.calls + [[]])
    case Arrive(None, _) => s.(call := Idle)
    case Arrive(Some(f), answered) =>
      if s.call.First? then FirstStep(s, f, answered) else NextStep(s, f, answered)
  }

  function SubmitStep(s: Station, data: seq<byte>): Station {
    if !IsPacket(data) then s
    else s.(packets := s.packets[s.nextSequence := data],
      nextSequence := (s.nextSequence + 1) % 0x1_0000_0000,
      call := Sending(s.nextSequence, data, 0, 0, false))
  }

  predicate Acknowledges(f: Frame, q: u32, index: nat) {
    f.linkSequence == q && f.fragmentIndex == index && IsAck(f)
  }

  function ReplyStep(s: Station, reply: Option<Frame>): Station
    requires HasFragment(s)
  {
    var c := s.call;
    if reply.Some? && Acknowledges(reply.value, c.q, c.index) then
      if c.index + 1 == FragmentCount(|c.data|, s.cap) then s.(call := Idle, sent := s.sent + [c.q])
      else s.(call := c.(index := c.index + 1, attempt := 0, waiting := false))
    else
      var retries := if reply.None? || IsNak(reply.value) then s.retries + 1 else s.retries;
      s.(retries := retries,
        call := if c.attempt >= MAX_RETRIES then Idle else c.(attempt := c.attempt + 1, waiting := false))
  }

  /** The frame stored is acknowledged; once the last is, the packet is delivered. */
  function Stored(s: Station, first: Frame, expected: nat, buffer: seq<byte>, f: Frame, answered: bool): Station
    requires |s.calls| > 0 && first.transportSize <= |buffer|
  {
    var n := |s.calls| - 1;
    var t := s.(wire := s.wire + {Answer(f, true)}, calls := s.calls[n := s.calls[n] + [f]]);
    if !answered then t.(call := Idle)
    else if expected + 1 < first.fragmentCount then t.(call := Next(first, expected + 1, buffer))
    else t.(call := Idle, delivered := s.delivered + [(first.linkSequence, buffer[..first.transportSize])])
  }

  function FirstStep(s: Station, f: Frame, answered: bool): Station
    requires Listening(s) && s.call.First?
  {
    match OnFirst(s.call.buffer, f)
    case Skip => s
    case Accept(buffer) => Stored(s, f, 0, buffer, f, answered)
    case _ => s.(call := Idle)
  }

  function NextStep(s: Station, f: Frame, answered: bool): Station
    requires Listening(s) && s.call.Next? && Bounded(f)
  {
    var c := s.call;
    match OnNext(c.first, c.expected, c.buffer, f)
    case Accept(buffer) => Stored(s, c.first, c.expected, buffer, f, answered)
    case _ => s.(call := Idle, retries := s.retries + 1, wire := s.wire + {Answer(f, false)})
  }

  // ---- what every run keeps --------------------------------------------------------------------

  /** f is one of the fragments of a packet the station was given. */
  ghost predicate Genuine(f: Frame, packets: map<u32, seq<byte>>, cap: Capacity) {
    var q := f.linkSequence;
    q in packets && IsPacket(packets[q]) && f.fragmentIndex < FragmentCount(|packets[q]|, cap)
    && f == Fragment(q, packets[q], cap, f.fragmentIndex)
  }

  /** A receive call has stored the first fragments of one packet, in order, and nothing else. */
  ghost predicate Collected(call: seq<Frame>, packets: map<u32, seq<byte>>, cap: Capacity) {
    call != [] ==>
      var q := call[0].linkSequence;
      q in packets && IsPacket(packets[q]) && |call| <= FragmentCount(|packets[q]|, cap)
      && call == Fragments(q, packets[q], cap, |call|)
  }

  /** Some single receive call has stored more than i fragments, the first of them of packet q. */
  ghost predicate Receipt(calls: seq<seq<Frame>>, q: u32, i: nat) {
    exists k :: 0 <= k < |calls| && i < |calls[k]| && calls[k][0].linkSequence == q
  }

  ghost predicate WireOk(f: Frame, s: Station) {
    && Bounded(f)
    && (IsData(f) ==> Genuine(f, s.packets, s.cap))
    && (IsAck(f) ==> Receipt(s.calls, f.linkSequence, f.fragmentIndex))
  }

  ghost predicate Confirmed(q: u32, s: Station, calls: seq<seq<Frame>>) {
    q in s.packets && IsPacket(s.packets[q]) && Receipt(calls, q, FragmentCount(|s.packets[q]|, s.cap) - 1)
  }

  ghost predicate Faithful(d: (u32, seq<byte>), packets: map<u32, seq<byte>>) {
    d.0 in packets && packets[d.0] == d.1
  }

  /** The buffer of a receive call holds the part of the packet that its stored fragments cover. */
  ghost predicate Assembled(c: Call, stored: seq<Frame>, packets: map<u32, seq<byte>>, cap: Capacity)
    requires c.Next?
  {
    var q := c.first.linkSequence;
    && |stored| == c.expected > 0 && stored[0] == c.first && q in packets && IsPacket(packets[q])
    && c.expected < FragmentCount(|packets[q]|, cap) && |packets[q]| <= |c.buffer|
    && c.first == Fragment(q, packets[q], cap, 0)
    && var n := Offset(|packets[q]|, cap, c.expected); c.buffer[..n] == packets[q][..n]
  }

  ghost predicate CallOk(s: Station, p: Station) {
    match s.call
    case Idle => true
    case Sending(q, data, index, attempt, waiting) =>
      q in s.packets && s.packets[q] == data && HasFragment(s) && attempt <= MAX_RETRIES
    case First(buffer) => |s.calls| > 0 && s.calls[|s.calls| - 1] == []
    case Next(_, _, _) => |s.calls| > 0 && Assembled(s.call, s.calls[|s.calls| - 1], p.packets, p.cap)
  }

  /** What station s keeps, given its peer p. */
  ghost predicate Half(s: Station, p: Station) {
    && (forall q | q in s.packets :: IsPacket(s.packets[q]))
    && (forall f | f in s.wire :: WireOk(f, s))
    && (forall k | 0 <= k < |s.calls| :: Collected(s.calls[k], p.packets, p.cap))
    && (forall i | 0 <= i < |s.sent| :: Confirmed(s.sent[i], s, p.calls))
    && (forall i | 0 <= i < |s.delivered| :: Faithful(s.delivered[i], p.packets))
    && CallOk(s, p)
  }

  /** History only grows: packets keep their sequences, receive calls their fragments. */
  ghost predicate Grows(s: Station, t: Station) {
    && t.cap == s.cap
    && (forall q | q in s.packets :: q in t.packets && t.packets[q] == s.packets[q])
    && |s.calls| <= |t.calls|
    && (forall k | 0 <= k < |s.calls| :: s.calls[k] <= t.calls[k])
  }

  lemma StepGrows(s: Station, a: Action)
    requires Enabled(s, a)
    ensures Grows(s, Step(s, a))
  {}

  lemma ReceiptGrows(s: Station, t: Station, q: u32, i: nat)
    requires Grows(s, t) && Receipt(s.calls, q, i)
    ensures Receipt(t.calls, q, i)
  {
    var k :| 0 <= k < |s.calls| && i < |s.calls[k]| && s.calls[k][0].linkSequence == q;
    assert s.calls[k] <= t.calls[k];
  }

  /** What p keeps is not disturbed by a step of s. */
  lemma PeerGrows(p: Station, s: Station, t: Station)
    requires Half(p, s) && Grows(s, t)
    ensures Half(p, t)
  {
    forall i | 0 <= i < |p.sent|
      ensures Confirmed(p.sent[i], p, t.calls)
    {
      assert Confirmed(p.sent[i], p, s.calls);
      ReceiptGrows(s, t, p.sent[i], FragmentCount(|p.packets[p.sent[i]]|, p.cap) - 1);
    }
    forall i | 0 <= i < |p.delivered|
      ensures Faithful(p.delivered[i], t.packets)
    {
      assert Faithful(p.delivered[i], s.packets);
    }
    forall k | 0 <= k < |p.calls|
      ensures Collected(p.calls[k], t.packets, t.cap)
    {
      assert Collected(p.calls[k], s.packets, s.cap);
    }
  }

  /** Frames already written stay accounted for, and so do the sends that returned 0. */
  lemma OldPart(s: Station, p: Station, t: Station)
    requires Half(s, p) && Grows(s, t)
    ensures forall f | f in s.wire :: WireOk(f, t)
    ensures forall i | 0 <= i < |s.sent| :: Confirmed(s.sent[i], t, p.calls)
  {
    forall f | f in s.wire
      ensures WireOk(f, t)
    {
      assert WireOk(f, s);
      if IsAck(f) {
        ReceiptGrows(s, t, f.linkSequence, f.fragmentIndex);
      }
    }
    forall i | 0 <= i < |s.sent|
      ensures Confirmed(s.sent[i], t, p.calls)
    {
      assert Confirmed(s.sent[i], s, p.calls);
    }
  }

  lemma SubmitKeeps(s: Station, p: Station, data: seq<byte>)
    requires Half(s, p) && Enabled(s, Submit(data))
    ensures Half(Step(s, Submit(data)), p)
  {
    OldPart(s, p, Step(s, Submit(data)));
  }

  lemma WriteKeeps(s: Station, p: Station, ok: bool)
    requires Half(s, p) && Enabled(s, Write(ok))
    ensures Half(Step(s, Write(ok)), p)
  {
    var t := Step(s, Write(ok));
    OldPart(s, p, t);
    var f := Fragment(s.call.q, s.call.data, s.cap, s.call.index);
    assert WireOk(f, t);
  }

  lemma ReplyKeeps(s: Station, p: Station, f: Option<Frame>)
    requires Half(s, p) && Half(p, s) && Enabled(s, Reply(f)) && (f.Some? ==> f.value in p.wire)
    ensures Half(Step(s, Reply(f)), p)
  {
    var t := Step(s, Reply(f));
    OldPart(s, p, t);
    if f.Some? && Acknowledges(f.value, s.call.q, s.call.index) {
      assert WireOk(f.value, p);
      assert s.call.index + 1 == FragmentCount(|s.call.data|, s.cap) ==> Confirmed(s.call.q, t, p.calls);
    }
  }

  lemma ListenKeeps(s: Station, p: Station, buffer: seq<byte>)
    requires Half(s, p) && Enabled(s, Listen(buffer))
    ensures Half(Step(s, Listen(buffer)), p)
  {
    OldPart(s, p, Step(s, Listen(buffer)));
  }

  /** stored, all of packet q, and the buffer they were copied to: one more fragment was just added. */
  ghost predicate Extended(stored: seq<Frame>, f: Frame, buffer: seq<byte>, p: Station) {
    var q := f.linkSequence;
    && Genuine(f, p.packets, p.cap) && f.fragmentIndex == |stored|
    && Collected(stored, p.packets, p.cap) && (stored != [] ==> stored[0].linkSequence == q)
    && |p.packets[q]| <= |buffer|
    && var n := Offset(|p.packets[q]|, p.cap, |stored| + 1); buffer[..n] == p.packets[q][..n]
  }

  lemma CollectedNext(stored: seq<Frame>, f: Frame, buffer: seq<byte>, p: Station)
    requires Extended(stored, f, buffer, p)
    ensures Collected(stored + [f], p.packets, p.cap) && (stored + [f])[0].linkSequence == f.linkSequence
    ensures var d := p.packets[f.linkSequence];
      (stored + [f])[0] == Fragment(f.linkSequence, d, p.cap, 0) && f.transportSize == |d|
      && f.fragmentCount == FragmentCount(|d|, p.cap)
  {
    if stored == [] {
      assert Fragments(f.linkSequence, p.packets[f.linkSequence], p.cap, 0) == [];
    }
  }

  ghost predicate Appended(s: Station, f: Frame, t: Station) {
    && |s.calls| > 0 && (var n := |s.calls| - 1; t.calls == s.calls[n := s.calls[n] + [f]])
    && t.packets == s.packets && t.cap == s.cap
  }

  lemma AppendedGrows(s: Station, f: Frame, t: Station)
    requires Appended(s, f, t)
    ensures Grows(s, t)
  {
    var n := |s.calls| - 1;
    assert s.calls[n] <= s.calls[n] + [f];
  }

  /** The acknowledgement written is backed by the fragments stored. */
  lemma AnswerOk(s: Station, p: Station, f: Frame, buffer: seq<byte>, t: Station)
    requires Appended(s, f, t) && Extended(s.calls[|s.calls| - 1], f, buffer, p)
    ensures WireOk(Answer(f, true), t)
  {
    var n := |s.calls| - 1;
    CollectedNext(s.calls[n], f, buffer, p);
    assert t.calls[n] == s.calls[n] + [f];
    assert Receipt(t.calls, f.linkSequence, f.fragmentIndex);
  }

  lemma CallsKept(s: Station, p: Station, f: Frame, buffer: seq<byte>, t: Station)
    requires Half(s, p) && Appended(s, f, t) && Extended(s.calls[|s.calls| - 1], f, buffer, p)
    ensures forall k | 0 <= k < |t.calls| :: Collected(t.calls[k], p.packets, p.cap)
  {
    CollectedNext(s.calls[|s.calls| - 1], f, buffer, p);
    forall k | 0 <= k < |t.calls|
      ensures Collected(t.calls[k], p.packets, p.cap)
    {
      assert k < |s.calls| - 1 ==> t.calls[k] == s.calls[k];
    }
  }

  /** Everything but the state of the call, when a fragment is stored and acknowledged. */
  lemma StoredHistory(s: Station, p: Station, f: Frame, buffer: seq<byte>, t: Station)
    requires Half(s, p) && Appended(s, f, t) && Extended(s.calls[|s.calls| - 1], f, buffer, p)
    requires t.wire == s.wire + {Answer(f, true)} && t.sent == s.sent
    ensures forall g | g in t.wire :: WireOk(g, t)
    ensures forall k | 0 <= k < |t.calls| :: Collected(t.calls[k], p.packets, p.cap)
    ensures forall i | 0 <= i < |t.sent| :: Confirmed(t.sent[i], t, p.calls)
  {
    AppendedGrows(s, f, t);
    OldPart(s, p, t);
    AnswerOk(s, p, f, buffer, t);
    CallsKept(s, p, f, buffer, t);
  }

  /** The last fragment completes the packet. */
  lemma WholePacket(stored: seq<Frame>, f: Frame, buffer: seq<byte>, p: Station)
    requires Extended(stored, f, buffer, p) && |stored| + 1 >= f.fragmentCount
    ensures f.transportSize <= |buffer| && Faithful((f.linkSequence, buffer[..f.transportSize]), p.packets)
  {
    var d := p.packets[f.linkSequence];
    LastOffset(|d|, p.cap);
    assert d[..|d|] == d;
  }

  lemma StoredKeeps(s: Station, p: Station, first: Frame, buffer: seq<byte>, f: Frame, answered: bool)
    requires Half(s, p) && |s.calls| > 0
    requires var stored := s.calls[|s.calls| - 1];
      Extended(stored, f, buffer, p) && first == (stored + [f])[0] && first.transportSize <= |buffer|
    ensures Half(Stored(s, first, |s.calls[|s.calls| - 1]|, buffer, f, answered), p)
  {
    var stored := s.calls[|s.calls| - 1];
    var t := Stored(s, first, |stored|, buffer, f, answered);
    CollectedNext(stored, f, buffer, p);
    StoredHistory(s, p, f, buffer, t);
    if answered {
      if |stored| + 1 >= first.fragmentCount {
        WholePacket(stored, f, buffer, p);
      }
    }
  }

  lemma FirstExtends(s: Station, p: Station, f: Frame)
    requires Half(s, p) && Half(p, s) && s.call.First? && f in p.wire && OnFirst(s.call.buffer, f).Accept?
    ensures Extended(s.calls[|s.calls| - 1], f, OnFirst(s.call.buffer, f).buffer, p)
  {
    assert WireOk(f, p);
    var d := p.packets[f.linkSequence];
    FragmentPlace(d, p.cap, f.fragmentIndex);
    assert s.call.buffer[..0] == d[..0];
    StoreNext(s.call.buffer, f.linkSequence, d, p.cap, 0);
  }

  lemma NextExtends(s: Station, p: Station, f: Frame)
    requires Half(s, p) && Half(p, s) && s.call.Next? && f in p.wire && Bounded(f)
    requires OnNext(s.call.first, s.call.expected, s.call.buffer, f).Accept?
    ensures Extended(s.calls[|s.calls| - 1], f,
      OnNext(s.call.first, s.call.expected, s.call.buffer, f).buffer, p)
  {
    assert WireOk(f, p);
    assert Collected(s.calls[|s.calls| - 1], p.packets, p.cap);
    StoreNext(s.call.buffer, f.linkSequence, p.packets[f.linkSequence], p.cap, s.call.expected);
  }

  /** A call that ends, and a NAK written, disturb nothing. */
  lemma EndKeeps(s: Station, p: Station, t: Station)
    requires Half(s, p) && t.call.Idle? && t == s.(call := Idle, retries := t.retries, wire := t.wire)
    requires forall f | f in t.wire :: f in s.wire || (Bounded(f) && !IsData(f) && !IsAck(f))
    ensures Half(t, p)
  {
    OldPart(s, p, t);
  }

  lemma ArriveKeeps(s: Station, p: Station, frame: Option<Frame>, answered: bool)
    requires Half(s, p) && Half(p, s) && Enabled(s, Arrive(frame, answered))
    requires frame.Some? ==> frame.value in p.wire
    ensures Half(Step(s, Arrive(frame, answered)), p)
  {
    if frame.None? {
      EndKeeps(s, p, Step(s, Arrive(frame, answered)));
    } else if s.call.First? {
      FirstKeeps(s, p, frame.value, answered);
    } else {
      NextKeeps(s, p, frame.value, answered);
    }
  }

  lemma FirstKeeps(s: Station, p: Station, f: Frame, answered: bool)
    requires Half(s, p) && Half(p, s) && Enabled(s, Arrive(Some(f), answered)) && f in p.wire && s.call.First?
    ensures Half(Step(s, Arrive(Some(f), answered)), p)
  {
    var t := Step(s, Arrive(Some(f), answered));
    match OnFirst(s.call.buffer, f)
    case Skip =>
    case Accept(buffer) =>
      FirstExtends(s, p, f);
      StoredKeeps(s, p, f, buffer, f, answered);
    case _ => EndKeeps(s, p, t);
  }

  lemma NextKeeps(s: Station, p: Station, f: Frame, answered: bool)
    requires Half(s, p) && Half(p, s) && Enabled(s, Arrive(Some(f), answered)) && f in p.wire && s.call.Next?
    ensures Half(Step(s, Arrive(Some(f), answered)), p)
  {
    var t := Step(s, Arrive(Some(f), answered));
    match OnNext(s.call.first, s.call.expected, s.call.buffer, f)
    case Accept(buffer) =>
      NextExtends(s, p, f);
      StoredKeeps(s, p, s.call.first, buffer, f, answered);
    case _ => EndKeeps(s, p, t);
  }

  // ---- two stations ----------------------------------------------------------------------------

  datatype World = World(left: Station, right: Station)

  /** Which station acts, and how. */
  datatype Event = Event(onLeft: bool, action: Action)

  /** A frame can be read if the other station wrote it, however long ago and however often it was read. */
  predicate FromPeer(p: Station, a: Action) {
    match a
    case Reply(Some(f)) => f in p.wire
    case Arrive(Some(f), _) => f in p.wire
    case _ => true
  }

  predicate Possible(w: World, e: Event) {
    if e.onLeft then Enabled(w.left, e.action) && FromPeer(w.right, e.action)
    else Enabled(w.right, e.action) && FromPeer(w.left, e.action)
  }

  function Happen(w: World, e: Event): World
    requires Possible(w, e)
  {
    if e.onLeft then w.(left := Step(w.left, e.action)) else w.(right := Step(w.right, e.action))
  }

  function Fresh(cap: Capacity): Station {
    Station(cap, 1, 0, Idle, map[], {}, [], [], [])
  }

  ghost predicate IsRun(w: World, events: seq<Event>)
    decreases |events|
  {
    events == [] || (Possible(w, events[0]) && IsRun(Happen(w, events[0]), events[1..]))
  }

  ghost function After(w: World, events: seq<Event>): World
    requires IsRun(w, events)
    decreases |events|
  {
    if events == [] then w else After(Happen(w, events[0]), events[1..])
  }

  ghost predicate Sound(w: World) {
    Half(w.left, w.right) && Half(w.right, w.left)
  }

  lemma StepKeeps(s: Station, p: Station, a: Action)
    requires Half(s, p) && Half(p, s) && Enabled(s, a) && FromPeer(p, a)
    ensures Half(Step(s, a), p) && Half(p, Step(s, a))
  {
    StepGrows(s, a);
    PeerGrows(p, s, Step(s, a));
    match a
    case Submit(data) => SubmitKeeps(s, p, data);
    case Write(ok) => WriteKeeps(s, p, ok);
    case Reply(f) => ReplyKeeps(s, p, f);
    case Listen(buffer) => ListenKeeps(s, p, buffer);
    case Arrive(f, answered) => ArriveKeeps(s, p, f, answered);
  }

  lemma HappenSound(w: World, e: Event)
    requires Sound(w) && Possible(w, e)
    ensures Sound(Happen(w, e))
  {
    if e.onLeft {
      StepKeeps(w.left, w.right, e.action);
    } else {
      StepKeeps(w.right, w.left, e.action);
    }
  }

  lemma {:induction false} RunSound(w: World, events: seq<Event>)
    requires Sound(w) && IsRun(w, events)
    ensures Sound(After(w, events))
    decreases |events|
  {
    if events != [] {
      HappenSound(w, events[0]);
      RunSound(Happen(w, events[0]), events[1..]);
    }
  }

  function Start(capLeft: Capacity, capRight: Capacity): World {
    World(Fresh(capLeft), Fresh(capRight))
  }

  /** A world reached from two fresh stations, whatever the wire did. */
  ghost predicate Reachable(w: World) {
    exists capLeft: Capacity, capRight: Capacity, events ::
      IsRun(Start(capLeft, capRight), events) && w == After(Start(capLeft, capRight), events)
  }

  lemma ReachableSound(w: World)
    requires Reachable(w)
    ensures Sound(w)
  {
    var capLeft: Capacity, capRight: Capacity, events :|
      IsRun(Start(capLeft, capRight), events) && w == After(Start(capLeft, capRight), events);
    RunSound(Start(capLeft, capRight), events);
  }

  function Here(w: World, onLeft: bool): Station {
    if onLeft then w.left else w.right
  }

  function There(w: World, onLeft: bool): Station {
    Here(w, !onLeft)
  }

  /** Every packet a receive call ever delivered is, byte for byte, the packet that the peer submitted under
      the link sequence of the call's first frame. */
  lemma Integrity(w: World, onLeft: bool, i: nat)
    requires Reachable(w) && i < |Here(w, onLeft).delivered|
    ensures var (q, bytes) := Here(w, onLeft).delivered[i];
      q in There(w, onLeft).packets && There(w, onLeft).packets[q] == bytes
  {
    ReachableSound(w);
    assert Faithful(Here(w, onLeft).delivered[i], There(w, onLeft).packets);
  }

  /** A receive call stored the fragments 0..n-1 of packet q, in this order and before anything else. */
  ghost predicate StoredFirst(call: seq<Frame>, q: u32, p: Station, n: nat) {
    q in p.packets && IsPacket(p.packets[q]) && n <= FragmentCount(|p.packets[q]|, p.cap)
    && Fragments(q, p.packets[q], p.cap, n) <= call
  }

  lemma {:induction false} FragmentsPrefix(q: u32, data: seq<byte>, cap: Capacity, i: nat, n: nat)
    requires IsPacket(data) && i <= n <= FragmentCount(|data|, cap)
    ensures Fragments(q, data, cap, i) <= Fragments(q, data, cap, n)
  {}

  lemma ReceiptMeans(s: Station, p: Station, q: u32, i: nat) returns (k: nat)
    requires Half(s, p) && Receipt(s.calls, q, i)
    ensures k < |s.calls| && StoredFirst(s.calls[k], q, p, i + 1)
  {
    k :| 0 <= k < |s.calls| && i < |s.calls[k]| && s.calls[k][0].linkSequence == q;
    assert Collected(s.calls[k], p.packets, p.cap);
    FragmentsPrefix(q, p.packets[q], p.cap, i + 1, |s.calls[k]|);
  }

  /** An ACK is on the wire only if one receive call of its writer stored that fragment and all before it. */
  lemma AckIsEarned(w: World, onLeft: bool, f: Frame) returns (k: nat)
    requires Reachable(w) && f in Here(w, onLeft).wire && IsAck(f)
    ensures k < |Here(w, onLeft).calls|
    ensures StoredFirst(Here(w, onLeft).calls[k], f.linkSequence, There(w, onLeft), f.fragmentIndex + 1)
  {
    ReachableSound(w);
    assert WireOk(f, Here(w, onLeft));
    k := ReceiptMeans(Here(w, onLeft), There(w, onLeft), f.linkSequence, f.fragmentIndex);
  }

  /** If a send returned 0, one receive call of the peer stored all the fragments of that packet in order and
      nothing else, whatever acknowledgements were read on the way. */
  lemma Agreement(w: World, onLeft: bool, i: nat) returns (k: nat)
    requires Reachable(w) && i < |Here(w, onLeft).sent|
    ensures var s, q := Here(w, onLeft), Here(w, onLeft).sent[i];
      q in s.packets && IsPacket(s.packets[q]) && k < |There(w, onLeft).calls|
      && There(w, onLeft).calls[k] == Fragments(q, s.packets[q], s.cap, FragmentCount(|s.packets[q]|, s.cap))
      && Payloads(There(w, onLeft).calls[k]) == s.packets[q]
  {
    ReachableSound(w);
    var s, p := Here(w, onLeft), There(w, onLeft);
    assert Confirmed(s.sent[i], s, p.calls);
    k := ReceiptMeans(p, s, s.sent[i], FragmentCount(|s.packets[s.sent[i]]|, s.cap) - 1);
    assert Collected(p.calls[k], s.packets, s.cap);
    PacketTiled(s.sent[i], s.packets[s.sent[i]], s.cap);
  }

  /** In a reachable world the guards of the actions leave out nothing but the reuse of a link sequence. */
  lemma NothingExcluded(w: World, onLeft: bool)
    requires Reachable(w)
    ensures forall f | f in There(w, onLeft).wire :: Bounded(f)
    ensures Here(w, onLeft).call.Sending? ==> HasFragment(Here(w, onLeft))
    ensures Here(w, onLeft).call.First? || Here(w, onLeft).call.Next? ==> Listening(Here(w, onLeft))
  {
    ReachableSound(w);
    forall f | f in There(w, onLeft).wire
      ensures Bounded(f)
    {
      assert WireOk(f, There(w, onLeft));
    }
  }

  lemma {:induction false} RunsJoin(w: World, some: seq<Event>, e: Event)
    requires IsRun(w, some) && Possible(After(w, some), e)
    ensures IsRun(w, some + [e]) && After(w, some + [e]) == Happen(After(w, some), e)
    decreases |some|
  {
    if some == [] {
      assert [] + [e] == [e] && [e][1..] == [];
      assert IsRun(Happen(w, e), []);
    } else {
      assert (some + [e])[1..] == some[1..] + [e];
      RunsJoin(Happen(w, some[0]), some[1..], e);
    }
  }

  lemma ReachableNext(w: World, e: Event)
    requires Reachable(w) && Possible(w, e)
    ensures Reachable(Happen(w, e))
  {
    var capLeft: Capacity, capRight: Capacity, events :|
      IsRun(Start(capLeft, capRight), events) && w == After(Start(capLeft, capRight), events);
    RunsJoin(Start(capLeft, capRight), events, e);
  }
}
