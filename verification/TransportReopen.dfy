/** Opening a channel again: the close has taken its mutex, and nothing gives it back. */
module TransportReopen {
  import opened Wrappers
  import opened Bytes
  import opened Transport
  import opened TransportRing
  import opened TransportChannels

  // ---- one session of a channel --------------------------------------------------------------------

  /** A run in which no close of the channel gets past joining its worker. */
  ghost predicate Session(s: System, i: nat, events: seq<Event>) {
    IsRun(s, events) && NoEnd(events, i)
  }

  ghost predicate NoEnd(events: seq<Event>, i: nat) {
    forall k | 0 <= k < |events| :: events[k] != On(i, CloseEnd)
  }

  /** The requests accepted since are handled, in hand or queued, each once and in order. */
  ghost predicate HandlesSince(c: Channel, d: Channel) {
    && RingOk(Settled(d)) && c.accepted <= d.accepted
    && Served(d) + Queued(Settled(d)) == Served(c) + d.accepted[|c.accepted|..]
  }

  ghost predicate Faultless(s: System, i: nat)
    requires i < |s.channels|
  {
    forall events | Session(s, i, events) ::
      i < |AfterAll(s, events).channels| && HandlesSince(s.channels[i], AfterAll(s, events).channels[i])
  }

  /** Nothing is queued or on its way, no worker runs, and nobody opens or closes the channel. */
  predicate AtRest(s: System, i: nat) {
    i < |s.channels| && s.dispatcher.Free? && var c := s.channels[i];
      !c.opening && c.closing.NotClosing? && c.worker.NotStarted? && c.push.NoPush?
      && c.ring.head == c.ring.tail == c.ring.count == 0
  }

  // ---- with the mutex --------------------------------------------------------------------------------

  lemma EventGrows(s: System, i: nat, e: Event)
    requires i < |s.channels| && Possible(s, e) && e != On(i, CloseEnd)
    ensures var t := Happen(s, e);
      i < |t.channels| && s.channels[i].accepted <= t.channels[i].accepted
      && (s.channels[i].guarded ==> t.channels[i].guarded)
  {
    match e
    case Proceed =>
    case Commit =>
    case On(_, _) =>
    case _ =>
  }

  lemma {:induction false} SessionGrows(s: System, i: nat, events: seq<Event>)
    requires i < |s.channels| && Session(s, i, events)
    ensures var t := AfterAll(s, events);
      i < |t.channels| && s.channels[i].accepted <= t.channels[i].accepted
      && (s.channels[i].guarded ==> t.channels[i].guarded)
    decreases |events|
  {
    if events != [] {
      EventGrows(s, i, events[0]);
      SessionGrows(Happen(s, events[0]), i, events[1..]);
    }
  }

  lemma GuardedIsFaultless(s: System, i: nat, events: seq<Event>)
    requires SystemOk(s) && s.threads && AtRest(s, i) && s.channels[i].guarded && Session(s, i, events)
    ensures i < |AfterAll(s, events).channels| && HandlesSince(s.channels[i], AfterAll(s, events).channels[i])
  {
    SessionGrows(s, i, events);
    RunKeeps(s, events);
    var c, d := s.channels[i], AfterAll(s, events).channels[i];
    assert ChannelOk(c, true, s.mutexes) && ChannelOk(d, true, s.mutexes);
    assert Queued(Settled(c)) == [];
    AllSince(c.handled, c.accepted, Served(d) + Queued(Settled(d)), d.accepted);
  }

  lemma AllSince(before: seq<Message>, accepted: seq<Message>, now: seq<Message>, all: seq<Message>)
    requires before + [] == accepted && now == all && accepted <= all
    ensures now == before + all[|accepted|..]
  {
    assert before + [] == before;
  }

  // ---- without it ------------------------------------------------------------------------------------

  /** The system with this channel and this state of the transport thread. */
  function With(s: System, i: nat, c: Channel, d: Dispatcher): System
    requires i < |s.channels|
  {
    s.(channels := s.channels[i := c], dispatcher := d)
  }

  ghost predicate Leads(s: System, i: nat, events: seq<Event>, t: System) {
    Session(s, i, events) && AfterAll(s, events) == t
  }

  lemma {:induction false} RunSnoc(s: System, events: seq<Event>, e: Event)
    requires IsRun(s, events) && Possible(AfterAll(s, events), e)
    ensures IsRun(s, events + [e]) && AfterAll(s, events + [e]) == Happen(AfterAll(s, events), e)
    decreases |events|
  {
    if events == [] {
      assert [] + [e] == [e] && [e][1..] == [];
      assert IsRun(Happen(s, e), []);
    } else {
      assert (events + [e])[1..] == events[1..] + [e];
      RunSnoc(Happen(s, events[0]), events[1..], e);
    }
  }

  lemma Then(s: System, i: nat, events: seq<Event>, t: System, e: Event) returns (more: seq<Event>)
    requires Leads(s, i, events, t) && Possible(t, e) && e != On(i, CloseEnd)
    ensures Leads(s, i, more, Happen(t, e))
  {
    RunSnoc(s, events, e);
    more := events + [e];
  }

  /** Steps of the channel's own threads. */
  lemma ThenOn(b: System, s: System, i: nat, events: seq<Event>, c: Channel, d: Dispatcher, a: Act)
    returns (more: seq<Event>)
    requires i < |s.channels| && Leads(b, i, events, With(s, i, c, d)) && Allowed(c, a) && !a.CloseEnd?
    requires !a.Enqueue? && !a.Advance? && !a.Direct? && (a.OpenEnd? ==> (a.opening.Threadless? <==> !s.threads))
    ensures Leads(b, i, more, With(s, i, After(c, a), d))
  {
    more := Then(b, i, events, With(s, i, c, d), On(i, a));
    assert Happen(With(s, i, c, d), On(i, a)) == With(s, i, After(c, a), d);
  }

  /** A step of queueing. */
  lemma ThenCommit(b: System, s: System, i: nat, events: seq<Event>, c: Channel, m: Message)
    returns (more: seq<Event>)
    requires i < |s.channels| && Leads(b, i, events, With(s, i, c, Queueing(i, m))) && Allowed(c, NextPush(c, m))
    ensures var d := After(c, NextPush(c, m));
      Leads(b, i, more, With(s, i, d, if d.push.NoPush? then Free else Queueing(i, m)))
  {
    more := Then(b, i, events, With(s, i, c, Queueing(i, m)), Commit);
  }

  /** A request comes for the open channel, which has a worker, and its queueing begins. */
  lemma ThenReceive(b: System, s: System, i: nat, events: seq<Event>, c: Channel, m: Message)
    returns (more: seq<Event>)
    requires i < |s.channels| && Leads(b, i, events, With(s, i, c, Free)) && IdsDistinct(s.channels)
    requires c.id == s.channels[i].id == m.channelId && c.open && !c.worker.NotStarted? && m.flags % 2 == 1
    requires Shape(c.ring)
    ensures Leads(b, i, more, With(s, i, c, Queueing(i, m)))
  {
    var t := With(s, i, c, Free);
    assert t.channels[i].id == m.channelId;
    assert Find(t.channels, m.channelId) == Some(i) by {
      var k := Find(t.channels, m.channelId).value;
      assert t.channels[k].id == s.channels[k].id;
    }
    more := Then(b, i, events, t, Receive(m));
    assert Happen(t, Receive(m)) == With(s, i, c, Found(i, m));
    more := Then(b, i, more, With(s, i, c, Found(i, m)), Proceed);
  }

  /** The channel after a request was queued without interference, but for the last step. */
  function AlmostQueued(c: Channel, m: Message): Channel
    requires Shape(c.ring)
  {
    c.(ring := c.ring.(slots := c.ring.slots[c.ring.tail := m], tail := Around(c.ring.tail)),
      push := Counted(m, c.ring.count))
  }

  lemma ThenAlmostQueue(b: System, s: System, i: nat, events: seq<Event>, c: Channel, m: Message)
    returns (more: seq<Event>)
    requires i < |s.channels| && Leads(b, i, events, With(s, i, c, Queueing(i, m))) && Shape(c.ring)
    requires c.push.NoPush? && !Popping(c.worker) && c.ring.count < QUEUE_DEPTH
    ensures Leads(b, i, more, With(s, i, AlmostQueued(c, m), Queueing(i, m)))
  {
    var c1 := After(c, Enqueue(m));
    more := ThenCommit(b, s, i, events, c, m);
    var c2 := After(c1, Advance);
    more := ThenCommit(b, s, i, more, c1, m);
    more := ThenCommit(b, s, i, more, c2, m);
    assert After(c2, Advance) == AlmostQueued(c, m);
  }

  /** The last step stores the count read before, whatever it is now. */
  function QueuedLast(c: Channel): Channel
    requires c.push.Counted?
  {
    c.(ring := c.ring.(count := Increment(c.push.n)), push := NoPush, accepted := c.accepted + [c.push.request])
  }

  /** The channel after its worker took the oldest request without interference. */
  function InHand(c: Channel): Channel
    requires Shape(c.ring) && c.ring.count > 0
  {
    c.(ring := c.ring.(head := Around(c.ring.head), count := c.ring.count - 1),
      worker := Handling(c.ring.slots[c.ring.head]))
  }

  lemma ThenTake(b: System, s: System, i: nat, events: seq<Event>, c: Channel, d: Dispatcher)
    returns (more: seq<Event>)
    requires i < |s.channels| && Leads(b, i, events, With(s, i, c, d)) && Shape(c.ring)
    requires c.worker.Looking? && 0 < c.ring.count < SIZE && (c.guarded ==> c.push.NoPush?)
    ensures Leads(b, i, more, With(s, i, InHand(c), d))
  {
    var c1 := After(c, Look);
    more := ThenOn(b, s, i, events, c, d, Look);
    var c2 := After(c1, Take);
    more := ThenOn(b, s, i, more, c1, d, Take);
    var c3 := After(c2, Take);
    more := ThenOn(b, s, i, more, c2, d, Take);
    var c4 := After(c3, Take);
    more := ThenOn(b, s, i, more, c3, d, Take);
    more := ThenOn(b, s, i, more, c4, d, Take);
    assert After(c4, Take) == InHand(c);
  }

  function HandledNow(c: Channel): Channel
    requires c.worker.Handling?
  {
    c.(worker := Looking, handled := c.handled + [c.worker.request])
  }

  /** The worker takes the oldest request and handles it. */
  lemma ThenHandle(b: System, s: System, i: nat, events: seq<Event>, c: Channel, d: Dispatcher)
    returns (more: seq<Event>)
    requires i < |s.channels| && Leads(b, i, events, With(s, i, c, d)) && Shape(c.ring)
    requires c.worker.Looking? && 0 < c.ring.count < SIZE && (c.guarded ==> c.push.NoPush?)
    ensures Leads(b, i, more, With(s, i, HandledNow(InHand(c)), d))
  {
    more := ThenTake(b, s, i, events, c, d);
    more := ThenOn(b, s, i, more, InHand(c), d, Handle);
  }

  /** A channel whose worker waits for the first request of a session. */
  predicate Waits(c: Channel, slots: seq<Message>) {
    c.open && c.worker.Looking? && c.push.NoPush? && c.ring == Ring(slots, 0, 0, 0) && |slots| == QUEUE_DEPTH
  }

  /** What a race makes of it: behind the two requests the worker handles what an old slot holds. */
  function Raced(c: Channel, m1: Message, m2: Message): Channel
    requires Shape(c.ring)
  {
    var x := c.ring.slots[2];
    c.(ring := Ring([m1, m2, x, c.ring.slots[3]], 3, 2, 0), accepted := c.accepted + [m1] + [m2],
      handled := c.handled + [m1] + [m2] + [x])
  }

  /** Without the mutex the worker takes the first request between the steps in which the transport thread reads and
      stores the count for the second, and its own change of the count is lost. */
  lemma ThenInterfere(b: System, s: System, i: nat, events: seq<Event>, c: Channel, m: Message)
    returns (more: seq<Event>)
    requires i < |s.channels| && Leads(b, i, events, With(s, i, c, Free)) && IdsDistinct(s.channels)
    requires c.open && c.worker.Looking? && c.push.NoPush? && !c.guarded && Shape(c.ring) && c.ring.count == 1
    requires c.id == s.channels[i].id == m.channelId && m.flags % 2 == 1
    ensures Leads(b, i, more, With(s, i, QueuedLast(InHand(AlmostQueued(c, m))), Free))
  {
    more := ThenReceive(b, s, i, events, c, m);
    more := ThenAlmostQueue(b, s, i, more, c, m);
    var c1 := AlmostQueued(c, m);
    more := ThenTake(b, s, i, more, c1, Queueing(i, m));
    more := ThenCommit(b, s, i, more, InHand(c1), m);
  }

  /** The worker handles the request in its hand, and takes and handles two more. */
  lemma ThenFinish(b: System, s: System, i: nat, events: seq<Event>, c: Channel) returns (more: seq<Event>)
    requires i < |s.channels| && Leads(b, i, events, With(s, i, c, Free)) && Shape(c.ring)
    requires c.worker.Handling? && c.ring.count == 2 && c.push.NoPush?
    ensures Leads(b, i, more, With(s, i, HandledNow(InHand(HandledNow(InHand(HandledNow(c))))), Free))
  {
    more := ThenOn(b, s, i, events, c, Free, Handle);
    var c1 := HandledNow(c);
    more := ThenHandle(b, s, i, more, c1, Free);
    more := ThenHandle(b, s, i, more, HandledNow(InHand(c1)), Free);
  }

  lemma ThenRace(b: System, s: System, i: nat, events: seq<Event>, c: Channel, m1: Message, m2: Message)
    returns (more: seq<Event>)
    requires i < |s.channels| && Leads(b, i, events, With(s, i, c, Free)) && IdsDistinct(s.channels)
    requires Waits(c, c.ring.slots) && !c.guarded && c.id == s.channels[i].id == m1.channelId == m2.channelId
    requires m1.flags % 2 == m2.flags % 2 == 1
    ensures Leads(b, i, more, With(s, i, Raced(c, m1, m2), Free))
  {
    more := ThenReceive(b, s, i, events, c, m1);
    more := ThenAlmostQueue(b, s, i, more, c, m1);
    more := ThenCommit(b, s, i, more, AlmostQueued(c, m1), m1);
    var c1 := QueuedLast(AlmostQueued(c, m1));
    more := ThenInterfere(b, s, i, more, c1, m2);
    var c2 := QueuedLast(InHand(AlmostQueued(c1, m2)));
    RaceIs(c, m1, m2);
    more := ThenFinish(b, s, i, more, c2);
  }

  lemma RaceIs(c: Channel, m1: Message, m2: Message)
    requires Waits(c, c.ring.slots)
    ensures var c2 := QueuedLast(InHand(AlmostQueued(QueuedLast(AlmostQueued(c, m1)), m2)));
      && Shape(c2.ring) && c2.worker.Handling? && c2.ring.count == 2 && c2.push.NoPush?
      && HandledNow(InHand(HandledNow(InHand(HandledNow(c2))))) == Raced(c, m1, m2)
  {}

  lemma ThenOpen(b: System, s: System, i: nat, events: seq<Event>, c: Channel) returns (more: seq<Event>)
    requires i < |s.channels| && Leads(b, i, events, With(s, i, c, Free)) && s.threads && Shape(c.ring)
    requires !c.opening && c.closing.NotClosing? && c.worker.NotStarted?
    ensures Leads(b, i, more, With(s, i, c.(open := true, stop := false, worker := Looking), Free))
  {
    var c1 := After(c, OpenBegin);
    more := ThenOn(b, s, i, events, c, Free, OpenBegin);
    more := ThenOn(b, s, i, more, c1, Free, OpenEnd(Started));
    assert After(c1, OpenEnd(Started)) == c.(open := true, stop := false, worker := Looking);
  }

  function Ask(id: u16, k: u32): Message { Message(0, id, 0, 1, k, 0, []) }

  lemma UnguardedIsFaulty(s: System, i: nat) returns (events: seq<Event>)
    requires SystemOk(s) && s.threads && AtRest(s, i) && !s.channels[i].guarded
    ensures Session(s, i, events) && i < |AfterAll(s, events).channels|
    ensures !HandlesSince(s.channels[i], AfterAll(s, events).channels[i])
  {
    var c := s.channels[i];
    assert ChannelOk(c, true, s.mutexes);
    events := [];
    assert With(s, i, c, Free) == s;
    events := ThenOpen(s, s, i, events, c);
    var c1 := c.(open := true, stop := false, worker := Looking);
    assert c1.ring == Ring(c.ring.slots, 0, 0, 0);
    events := ThenRace(s, s, i, events, c1, Ask(c.id, 0), Ask(c.id, 1));
    var d := Raced(c1, Ask(c.id, 0), Ask(c.id, 1));
    assert |d.handled| == |c.handled| + 3 && |d.accepted[|c.accepted|..]| == 2;
  }

  /** A session of a channel at rest goes right in every interleaving, up to the next close of it, exactly if the
      channel has its mutex when it is opened. */
  lemma SessionFaultlessExactly(s: System, i: nat)
    requires SystemOk(s) && s.threads && AtRest(s, i)
    ensures Faultless(s, i) <==> s.channels[i].guarded
  {
    if s.channels[i].guarded {
      forall events | Session(s, i, events)
        ensures i < |AfterAll(s, events).channels| && HandlesSince(s.channels[i], AfterAll(s, events).channels[i])
      {
        GuardedIsFaultless(s, i, events);
      }
    } else {
      var events := UnguardedIsFaulty(s, i);
    }
  }

  /** A channel has its mutex until a close of it has joined the worker, if the driver has mutexes, and never after. */
  lemma MutexExactly(threads: bool, mutexes: bool, events: seq<Event>, i: nat)
    requires IsRun(Begin(threads, mutexes), events) && i < |AfterAll(Begin(threads, mutexes), events).channels|
    ensures var c := AfterAll(Begin(threads, mutexes), events).channels[i]; c.guarded <==> mutexes && !c.ended
  {
    MutexRun(Begin(threads, mutexes), events);
  }

  ghost predicate MutexesOk(s: System) {
    forall i | 0 <= i < |s.channels| :: s.channels[i].guarded <==> s.mutexes && !s.channels[i].ended
  }

  lemma MutexStep(s: System, e: Event)
    requires MutexesOk(s) && Possible(s, e)
    ensures MutexesOk(Happen(s, e)) && Happen(s, e).mutexes == s.mutexes
  {
    match e
    case Proceed =>
    case Commit =>
    case On(_, _) =>
    case _ =>
  }

  lemma {:induction false} MutexRun(s: System, events: seq<Event>)
    requires MutexesOk(s) && IsRun(s, events)
    ensures MutexesOk(AfterAll(s, events)) && AfterAll(s, events).mutexes == s.mutexes
    decreases |events|
  {
    if events != [] {
      MutexStep(s, events[0]);
      MutexRun(Happen(s, events[0]), events[1..]);
    }
  }

  // ---- a request handled twice -------------------------------------------------------------------------

  /** A request is queued and handled. */
  lemma ThenServe(b: System, s: System, i: nat, events: seq<Event>, c: Channel, m: Message)
    returns (more: seq<Event>, d: Channel)
    requires i < |s.channels| && Leads(b, i, events, With(s, i, c, Free)) && IdsDistinct(s.channels)
    requires c.open && c.worker.Looking? && c.push.NoPush? && RingOk(c.ring) && c.ring.count == 0
    requires c.id == s.channels[i].id == m.channelId && m.flags % 2 == 1
    ensures Leads(b, i, more, With(s, i, d, Free))
    ensures d == c.(ring := Ring(c.ring.slots[c.ring.tail := m], Around(c.ring.head), Around(c.ring.tail), 0),
      accepted := c.accepted + [m], handled := c.handled + [m])
  {
    more := ThenReceive(b, s, i, events, c, m);
    more := ThenAlmostQueue(b, s, i, more, c, m);
    more := ThenCommit(b, s, i, more, AlmostQueued(c, m), m);
    var c1 := QueuedLast(AlmostQueued(c, m));
    more := ThenHandle(b, s, i, more, c1, Free);
    d := HandledNow(InHand(c1));
  }

  /** The channel after a close that found its worker gone. */
  function Closed(c: Channel): Channel {
    c.(guarded := false, ended := true, worker := NotStarted, closing := NotClosing,
      ring := c.ring.(head := 0, tail := 0, count := 0))
  }

  lemma ThenClear(s: System, i: nat, c: Channel) returns (events: seq<Event>)
    requires i < |s.channels| && s.channels[i] == c && Shape(c.ring) && c.worker.Exited? && c.closing.Joining?
    ensures IsRun(s, events) && AfterAll(s, events) == With(s, i, Closed(c), s.dispatcher)
  {
    var c1 := c.(worker := NotStarted, guarded := false, ended := true, closing := ClearCount);
    var c2 := c1.(ring := c1.ring.(count := 0), closing := ClearHead);
    var c3 := c2.(ring := c2.ring.(head := 0), closing := ClearTail);
    var d := c3.(ring := c3.ring.(tail := 0), closing := NotClosing);
    assert d == Closed(c) && With(s, i, c, s.dispatcher) == s && IsRun(With(s, i, d, s.dispatcher), []);
    events := Before(s, i, c3, Reset, [], d);
    events := Before(s, i, c2, Reset, events, d);
    events := Before(s, i, c1, Reset, events, d);
    events := Before(s, i, c, CloseEnd, events, d);
  }

  /** One more step of the channel in front of a run. */
  lemma Before(s: System, i: nat, c: Channel, a: Act, events: seq<Event>, d: Channel) returns (more: seq<Event>)
    requires i < |s.channels| && Allowed(c, a) && (a.CloseEnd? || a.Reset?)
    requires IsRun(With(s, i, After(c, a), s.dispatcher), events)
    requires AfterAll(With(s, i, After(c, a), s.dispatcher), events) == With(s, i, d, s.dispatcher)
    ensures IsRun(With(s, i, c, s.dispatcher), more)
    ensures AfterAll(With(s, i, c, s.dispatcher), more) == With(s, i, d, s.dispatcher)
  {
    assert Happen(With(s, i, c, s.dispatcher), On(i, a)) == With(s, i, After(c, a), s.dispatcher);
    FirstEvent(With(s, i, c, s.dispatcher), On(i, a), events);
    more := [On(i, a)] + events;
  }

  lemma ThenServeThree(b: System, s: System, i: nat, events: seq<Event>, c: Channel,
    m1: Message, m2: Message, m3: Message) returns (more: seq<Event>, d: Channel)
    requires i < |s.channels| && Leads(b, i, events, With(s, i, c, Free)) && IdsDistinct(s.channels)
    requires Waits(c, c.ring.slots) && c.id == s.channels[i].id == m1.channelId == m2.channelId == m3.channelId
    requires m1.flags % 2 == m2.flags % 2 == m3.flags % 2 == 1
    ensures Leads(b, i, more, With(s, i, d, Free))
    ensures d == c.(ring := Ring([m1, m2, m3, c.ring.slots[3]], 3, 3, 0), accepted := c.accepted + [m1] + [m2] + [m3],
      handled := c.handled + [m1] + [m2] + [m3])
  {
    more, d := ThenServe(b, s, i, events, c, m1);
    more, d := ThenServe(b, s, i, more, d, m2);
    more, d := ThenServe(b, s, i, more, d, m3);
  }

  /** The channel after a first session of three requests, closed. */
  function Used(a: Message, b: Message, c: Message): Channel {
    NewChannel(1, true).(stop := true, guarded := false, ended := true, ring := Ring([a, b, c, NO_MESSAGE], 0, 0, 0),
      accepted := [a, b, c], handled := [a, b, c])
  }

  lemma FirstSession(a: Message, b: Message, c: Message) returns (events: seq<Event>, s: System)
    requires a.flags % 2 == b.flags % 2 == c.flags % 2 == 1 && a.channelId == b.channelId == c.channelId == 1
    ensures IsRun(Begin(true, true), events) && AfterAll(Begin(true, true), events) == s
    ensures s == System(true, true, [Used(a, b, c)], Free)
  {
    var first, s0, d := FirstOpened();
    first, d := ThenServeThree(s0, s0, 0, first, d, a, b, c);
    first := ThenOn(s0, s0, 0, first, d, Free, CloseBegin);
    d := After(d, CloseBegin);
    first := ThenOn(s0, s0, 0, first, d, Free, Look);
    d := d.(worker := Exited);
    assert [] + [a] + [b] + [c] == [a, b, c] && Closed(d) == Used(a, b, c);
    events, s := FromBegin(s0, first, d);
  }

  /** The first channel is registered and opened. */
  lemma FirstOpened() returns (events: seq<Event>, s: System, c: Channel)
    ensures s == System(true, true, [NewChannel(1, true)], Free) == Happen(Begin(true, true), Register(1))
    ensures c == NewChannel(1, true).(open := true, worker := Looking) && Leads(s, 0, events, With(s, 0, c, Free))
  {
    var new' := NewChannel(1, true);
    s := Happen(Begin(true, true), Register(1));
    assert s == With(s, 0, new', Free) == System(true, true, [new'], Free);
    events := ThenOpen(s, s, 0, [], new');
    c := new'.(open := true, worker := Looking);
  }

  /** The run up to the point where the worker has left, its first event, and the end of the close. */
  lemma FromBegin(s: System, first: seq<Event>, c: Channel) returns (events: seq<Event>, t: System)
    requires s == System(true, true, [NewChannel(1, true)], Free) == Happen(Begin(true, true), Register(1))
    requires Leads(s, 0, first, With(s, 0, c, Free)) && Shape(c.ring) && c.worker.Exited? && c.closing.Joining?
    ensures IsRun(Begin(true, true), events) && AfterAll(Begin(true, true), events) == t
    ensures t == System(true, true, [Closed(c)], Free)
  {
    var last := ThenClear(With(s, 0, c, Free), 0, c);
    RunsJoin(s, first, last);
    FirstEvent(Begin(true, true), Register(1), first + last);
    events, t := [Register(1)] + (first + last), With(s, 0, Closed(c), Free);
  }

  /** A close may lose an accepted request: the channel is found open, then closed, its worker leaves, the request is
      queued and accepted, and the ring is cleared. */
  lemma CloseMayLose(m: Message) returns (events: seq<Event>)
    requires m.flags % 2 == 1 && m.channelId == 1
    ensures IsRun(Begin(true, true), events) && |AfterAll(Begin(true, true), events).channels| == 1
    ensures var c := AfterAll(Begin(true, true), events).channels[0];
      c.accepted == [m] && c.handled == [] && c.ring.count == 0 && c.worker.NotStarted? && c.closing.NotClosing?
  {
    var first, s0, d := FirstOpened();
    first := ThenReceive(s0, s0, 0, first, d, m);
    first := ThenOn(s0, s0, 0, first, d, Queueing(0, m), CloseBegin);
    d := After(d, CloseBegin);
    first := ThenOn(s0, s0, 0, first, d, Queueing(0, m), Look);
    d := d.(worker := Exited);
    first := ThenAlmostQueue(s0, s0, 0, first, d, m);
    first := ThenCommit(s0, s0, 0, first, AlmostQueued(d, m), m);
    var t;
    events, t := FromBegin(s0, first, QueuedLast(AlmostQueued(d, m)));
  }

  /** A channel is opened, serves three requests, is closed and opened again: in some run of the next two requests it
      handles the third one again. */
  lemma ReopenHandlesTwice(a: Message, b: Message, c: Message, m1: Message, m2: Message) returns (events: seq<Event>)
    requires a.flags % 2 == b.flags % 2 == c.flags % 2 == m1.flags % 2 == m2.flags % 2 == 1
    requires a.channelId == b.channelId == c.channelId == m1.channelId == m2.channelId == 1
    ensures IsRun(Begin(true, true), events) && |AfterAll(Begin(true, true), events).channels| == 1
    ensures var d := AfterAll(Begin(true, true), events).channels[0];
      d.accepted == [a, b, c, m1, m2] && d.handled == [a, b, c, m1, m2, c]
  {
    var first, s := FirstSession(a, b, c);
    var d := Used(a, b, c);
    assert With(s, 0, d, Free) == s;
    var more := ThenOpen(s, s, 0, [], d);
    var d1 := d.(open := true, stop := false, worker := Looking);
    more := ThenRace(s, s, 0, more, d1, m1, m2);
    RunsJoin(Begin(true, true), first, more);
    events := first + more;
    assert [a, b, c] + [m1] + [m2] == [a, b, c, m1, m2] && [a, b, c] + [m1] + [m2] + [c] == [a, b, c, m1, m2, c];
  }
}
