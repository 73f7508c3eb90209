/** Channels shared by the transport thread, their workers and whoever opens and closes them, one memory access at a
    time: what a channel's mutex protects, and for how long. */
module TransportChannels {
  import opened Wrappers
  import opened Bytes
  import opened Transport
  import opened TransportRing

  const MAX_CHANNELS := 20
  // size_t has 64 bits.
  const SIZE := 0x1_0000_0000_0000_0000

  // ---- one channel -----------------------------------------------------------------------------

  /** How far the transport thread is in queueing a request: the slot is written, the tail moved, the count read. */
  datatype Pushing =
    | NoPush
    | Written(request: Message)
    | TailMoved(request: Message)
    | Counted(request: Message, n: nat)

  /** Where the worker thread is in its loop; from Took to Uncounted it is in the middle of taking a request. */
  datatype Worker =
    | NotStarted
    | Looking
    | Taking
    | Took(request: Message)
    | HeadMoved(request: Message)
    | Uncounted(request: Message, n: nat)
    | Handling(request: Message)
    | Exited

  /** A close joins the worker and then clears the ring, field by field. */
  datatype ClosePhase = NotClosing | Joining | ClearCount | ClearHead | ClearTail

  /** A channel and its history: the requests accepted and those handled, in order. It is guarded while it has its
      mutex; ended tells whether a close of it ever got past joining the worker. */
  datatype Channel = Channel(
    id: u16,
    open: bool,
    stop: bool,
    opening: bool,
    closing: ClosePhase,
    guarded: bool,
    ended: bool,
    worker: Worker,
    push: Pushing,
    ring: Ring,
    accepted: seq<Message>,
    handled: seq<Message>)

  /** The worker was started, could not be, or the driver has no threads. */
  datatype OpenResult = Started | Refused | Threadless

  /** Enqueue and Advance are the steps of queueing a request, Direct a call of the handler in its place; Look, Take and
      Handle are the worker's loop, Take being each step of taking a request; a close begins, ends the worker and then
      clears the ring by three resets. */
  datatype Act =
    | Enqueue(request: Message)
    | Advance
    | Direct(request: Message)
    | Look
    | Take
    | Handle
    | OpenBegin
    | OpenEnd(opening: OpenResult)
    | CloseBegin
    | CloseEnd
    | Reset

  predicate Popping(w: Worker) { w.Took? || w.HeadMoved? || w.Uncounted? }

  predicate Live(c: Channel) { !c.worker.NotStarted? && !c.worker.Exited? }

  predicate Shape(r: Ring) { |r.slots| == QUEUE_DEPTH && r.head < QUEUE_DEPTH && r.tail < QUEUE_DEPTH }

  /** The mutex is held from the first to the last step of an operation on the queue. */
  predicate Allowed(c: Channel, a: Act) {
    Shape(c.ring) && match a
      case Enqueue(_) => c.push.NoPush? && (c.guarded ==> !Popping(c.worker))
      case Advance => !c.push.NoPush?
      case Direct(_) => true
      case Look => c.worker.Looking?
      case Take => Popping(c.worker) || (c.worker.Taking? && (c.guarded ==> c.push.NoPush?))
      case Handle => c.worker.Handling?
      case OpenBegin => !c.opening && c.closing.NotClosing?
      case OpenEnd(_) => c.opening
      case CloseBegin => !c.opening && c.closing.NotClosing?
      case CloseEnd => c.closing.Joining? && !Live(c)
      case Reset => !c.closing.NotClosing? && !c.closing.Joining?
  }

  function Around(i: nat): nat { if i + 1 == QUEUE_DEPTH then 0 else i + 1 }

  function Increment(n: nat): nat { if n + 1 == SIZE then 0 else n + 1 }

  function Decrement(n: nat): nat { if n == 0 then SIZE - 1 else n - 1 }

  /** An act leaves the channel's id as it is, and forgets no request. */
  predicate Continues(c: Channel, d: Channel) {
    d.id == c.id && c.accepted <= d.accepted && d.ended == c.ended && d.guarded == c.guarded && Shape(d.ring)
  }

  function Enqueued(c: Channel, m: Message): (d: Channel)
    requires Shape(c.ring) && c.push.NoPush?
    ensures Continues(c, d) && d.worker == c.worker && (d.push.NoPush? || d.push.request == m)
  {
    if c.ring.count >= QUEUE_DEPTH then c
    else c.(ring := c.ring.(slots := c.ring.slots[c.ring.tail := m]), push := Written(m))
  }

  function Advanced(c: Channel): (d: Channel)
    requires Shape(c.ring) && !c.push.NoPush?
    ensures Continues(c, d) && d.worker == c.worker && (d.push.NoPush? || d.push.request == c.push.request)
  {
    match c.push
    case Written(m) => c.(ring := c.ring.(tail := Around(c.ring.tail)), push := TailMoved(m))
    case TailMoved(m) => c.(push := Counted(m, c.ring.count))
    case Counted(m, n) => c.(ring := c.ring.(count := Increment(n)), push := NoPush, accepted := c.accepted + [m])
  }

  function Popped(c: Channel): (d: Channel)
    requires Shape(c.ring) && (Popping(c.worker) || c.worker.Taking?)
    ensures Continues(c, d) && d.push == c.push && !d.worker.NotStarted?
  {
    match c.worker
    case Taking => c.(worker := if c.ring.count == 0 then Looking else Took(c.ring.slots[c.ring.head]))
    case Took(m) => c.(ring := c.ring.(head := Around(c.ring.head)), worker := HeadMoved(m))
    case HeadMoved(m) => c.(worker := Uncounted(m, c.ring.count))
    case Uncounted(m, n) => c.(ring := c.ring.(count := Decrement(n)), worker := Handling(m))
  }

  function Opened(c: Channel, opening: OpenResult): (d: Channel)
    requires Shape(c.ring)
    ensures Continues(c, d) && d.push == c.push && (d.worker.NotStarted? ==> c.worker.NotStarted?)
  {
    var d := c.(opening := false);
    if !c.worker.NotStarted? || opening.Threadless? then d
    else if opening.Started? then d.(worker := Looking)
    else d.(open := false)
  }

  function Cleared(c: Channel): (d: Channel)
    requires Shape(c.ring) && !c.closing.NotClosing? && !c.closing.Joining?
    ensures Continues(c, d) && d.push == c.push && d.worker == c.worker
  {
    match c.closing
    case ClearCount => c.(ring := c.ring.(count := 0), closing := ClearHead)
    case ClearHead => c.(ring := c.ring.(head := 0), closing := ClearTail)
    case ClearTail => c.(ring := c.ring.(tail := 0), closing := NotClosing)
  }

  function After(c: Channel, a: Act): (d: Channel)
    requires Allowed(c, a)
    ensures Shape(d.ring) && d.id == c.id && c.accepted <= d.accepted
    ensures d.guarded == (c.guarded && !a.CloseEnd?) && d.ended == (c.ended || a.CloseEnd?)
    ensures !c.worker.NotStarted? && !a.CloseEnd? ==> !d.worker.NotStarted?
    ensures !a.Enqueue? && !a.Advance? ==> d.push == c.push
    ensures a.Enqueue? ==> d.push.NoPush? || d.push.request == a.request
    ensures a.Advance? ==> d.push.NoPush? || d.push.request == c.push.request
  {
    match a
    case Enqueue(m) => Enqueued(c, m)
    case Advance => Advanced(c)
    case Direct(m) => c.(accepted := c.accepted + [m], handled := c.handled + [m])
    case Look => c.(worker := if !c.stop || c.ring.count > 0 then Taking else Exited)
    case Take => Popped(c)
    case Handle => c.(worker := Looking, handled := c.handled + [c.worker.request])
    case OpenBegin => c.(open := true, stop := false, opening := true)
    case OpenEnd(opening) => Opened(c, opening)
    case CloseBegin => c.(open := false, stop := true, closing := Joining)
    case CloseEnd => c.(worker := NotStarted, guarded := false, ended := true, closing := ClearCount)
    case Reset => Cleared(c)
  }

  // ---- what the mutex keeps ----------------------------------------------------------------------

  /** The requests handled, and the one in the worker's hand. */
  function Served(c: Channel): seq<Message> {
    if c.worker.Handling? then c.handled + [c.worker.request] else c.handled
  }

  function Back(i: nat): nat { if i == 0 then QUEUE_DEPTH - 1 else i - 1 }

  /** The ring as it was before the operation under way: what that has moved is moved back. */
  function Settled(c: Channel): Ring {
    var r := if c.push.TailMoved? || c.push.Counted? then c.ring.(tail := Back(c.ring.tail)) else c.ring;
    if c.worker.HeadMoved? || c.worker.Uncounted? then r.(head := Back(r.head)) else r
  }

  ghost predicate AllFor(messages: seq<Message>, id: u16) {
    forall i | 0 <= i < |messages| :: messages[i].channelId == id
  }

  lemma AllForMore(messages: seq<Message>, id: u16, m: Message)
    requires AllFor(messages, id) && m.channelId == id
    ensures AllFor(messages + [m], id)
  {}

  /** The ring is well formed, and the requests handled, in hand and queued are those accepted, each once and in
      order; requests reach only the channel they name. */
  ghost predicate HandledOnce(c: Channel) {
    RingOk(Settled(c)) && Served(c) + Queued(Settled(c)) == c.accepted && AllFor(c.accepted, c.id)
  }

  /** At most one operation on the queue is under way, and what it has read still holds. */
  ghost predicate OneAtATime(c: Channel)
    requires RingOk(Settled(c))
  {
    var r := Settled(c);
    && (c.push.NoPush? || !Popping(c.worker))
    && (!c.push.NoPush? ==>
      r.count < QUEUE_DEPTH && r.slots[r.tail] == c.push.request && c.push.request.channelId == c.id)
    && (c.push.Counted? ==> c.push.n == r.count)
    && (Popping(c.worker) ==> r.count > 0 && r.slots[r.head] == c.worker.request)
    && (c.worker.Uncounted? ==> c.worker.n == r.count)
  }

  /** A channel with its mutex. */
  ghost predicate GuardedOk(c: Channel) {
    && HandledOnce(c) && OneAtATime(c)
    && (c.worker.NotStarted? ==> c.ring.count == 0 && c.push.NoPush?)
    && (c.worker.Exited? ==> c.stop) && (c.stop ==> c.closing.Joining?)
    && (c.closing.NotClosing? || c.closing.Joining?)
  }

  /** A channel of a driver without threads: its ring is never used. */
  ghost predicate Plain(c: Channel) {
    c.worker.NotStarted? && c.push.NoPush? && c.ring == NEW_RING && c.handled == c.accepted && AllFor(c.accepted, c.id)
  }

  ghost predicate ChannelOk(c: Channel, threads: bool, mutexes: bool) {
    && Shape(c.ring) && (mutexes && !c.ended ==> c.guarded)
    && (if threads then c.guarded ==> GuardedOk(c) else Plain(c))
  }

  // ---- the steps of queueing -----------------------------------------------------------------------

  lemma BackAround(i: nat)
    requires i < QUEUE_DEPTH
    ensures Back(Around(i)) == i && Around(Back(i)) == i
  {}

  /** A slot behind the queued ones can be written. */
  lemma {:induction false} FromKeeps(slots: seq<Message>, head: nat, n: nat, tail: nat, m: Message)
    requires |slots| == QUEUE_DEPTH && head < QUEUE_DEPTH && n < QUEUE_DEPTH && tail == (head + n) % QUEUE_DEPTH
    ensures From(slots[tail := m], head, n) == From(slots, head, n)
    decreases n
  {
    if n > 0 {
      NextTail(head, 1, n - 1);
      NotMet(head, n);
      FromFirst(slots, head, n);
      FromFirst(slots[tail := m], head, n);
      FromKeeps(slots, Around(head), n - 1, tail, m);
    }
  }

  lemma EnqueueKeeps(c: Channel, m: Message)
    requires GuardedOk(c) && Allowed(c, Enqueue(m)) && c.guarded && m.channelId == c.id && !c.worker.NotStarted?
    ensures GuardedOk(Enqueued(c, m))
  {
    if c.ring.count < QUEUE_DEPTH {
      FromKeeps(c.ring.slots, c.ring.head, c.ring.count, c.ring.tail, m);
      assert Queued(Settled(Enqueued(c, m))) == Queued(Settled(c));
    }
  }

  lemma AdvanceKeeps(c: Channel)
    requires GuardedOk(c) && Shape(c.ring) && !c.push.NoPush?
    ensures GuardedOk(Advanced(c))
  {
    match c.push
    case Written(m) => BackAround(c.ring.tail);
    case TailMoved(m) =>
    case Counted(m, n) => StoreKeeps(c, m, n);
  }

  /** The count makes a request written behind the tail a queued one. */
  lemma CountQueues(ring: Ring, r: Ring, m: Message)
    requires Shape(ring) && r == ring.(tail := Back(ring.tail)) && RingOk(r)
    requires r.count < QUEUE_DEPTH && r.slots[r.tail] == m
    ensures RingOk(ring.(count := r.count + 1)) && Queued(ring.(count := r.count + 1)) == Queued(r) + [m]
  {
    BackAround(ring.tail);
    assert r.slots[r.tail := m] == r.slots;
    PushQueues(r, m);
    assert ring.(count := r.count + 1) == TransportRing.Push(r, m);
  }

  /** With the last step the request is queued. */
  lemma StoreKeeps(c: Channel, m: Message, n: nat)
    requires GuardedOk(c) && Shape(c.ring) && c.push == Counted(m, n)
    ensures GuardedOk(Advanced(c)) && Served(Advanced(c)) == Served(c)
    ensures Queued(Settled(Advanced(c))) == Queued(Settled(c)) + [m]
  {
    var r, d := Settled(c), Advanced(c);
    CountQueues(c.ring, r, m);
    assert Settled(d) == c.ring.(count := r.count + 1);
    Regroup(Served(c), Queued(r), [m]);
    AllForMore(c.accepted, c.id, m);
    assert Served(d) == Served(c) && d.accepted == c.accepted + [m];
  }

  // ---- the steps of taking -------------------------------------------------------------------------

  lemma PopKeeps(c: Channel)
    requires GuardedOk(c) && c.guarded && Allowed(c, Take)
    ensures GuardedOk(Popped(c))
  {
    match c.worker
    case Taking =>
    case Took(m) => BackAround(c.ring.head);
    case HeadMoved(m) =>
    case Uncounted(m, n) => UnstoreKeeps(c, m, n);
  }

  /** The count ends the queueing of a request in front of the head. */
  lemma CountTakes(ring: Ring, r: Ring, m: Message)
    requires Shape(ring) && r == ring.(head := Back(ring.head)) && RingOk(r) && r.count > 0 && r.slots[r.head] == m
    ensures RingOk(ring.(count := r.count - 1)) && Queued(r) == [m] + Queued(ring.(count := r.count - 1))
  {
    BackAround(ring.head);
    PopTakesOldest(r);
    assert ring.(count := r.count - 1) == TransportRing.Pop(r);
  }

  /** With the last step the request is in the worker's hand. */
  lemma UnstoreKeeps(c: Channel, m: Message, n: nat)
    requires GuardedOk(c) && Shape(c.ring) && c.worker == Uncounted(m, n)
    ensures GuardedOk(Popped(c)) && Served(Popped(c)) == Served(c) + [m]
    ensures Queued(Settled(c)) == [m] + Queued(Settled(Popped(c)))
  {
    var r, d := Settled(c), Popped(c);
    CountTakes(c.ring, r, m);
    assert Settled(d) == c.ring.(count := r.count - 1);
    Regroup(c.handled, [m], Queued(Settled(d)));
  }

  lemma HandleKeeps(c: Channel)
    requires GuardedOk(c) && Allowed(c, Handle)
    ensures GuardedOk(After(c, Handle))
  {
    assert Served(After(c, Handle)) == Served(c) && Settled(After(c, Handle)) == Settled(c);
  }

  lemma DirectKeeps(c: Channel, m: Message)
    requires GuardedOk(c) && Allowed(c, Direct(m)) && c.worker.NotStarted? && m.channelId == c.id
    ensures GuardedOk(After(c, Direct(m)))
  {
    AllForMore(c.accepted, c.id, m);
    assert Queued(Settled(c)) == [] && c.handled + [] == c.handled && c.accepted == c.handled;
    assert (c.handled + [m]) + [] == c.handled + [m];
  }

  /** Whatever changes only flags, or moves the worker where it holds no request. */
  lemma FlagsKeep(c: Channel, a: Act)
    requires GuardedOk(c) && Allowed(c, a) && (a.Look? || a.OpenBegin? || a.OpenEnd? || a.CloseBegin?)
    ensures GuardedOk(After(c, a))
  {
    assert Served(After(c, a)) == Served(c) && Settled(After(c, a)) == Settled(c);
  }

  /** What the system around a channel sees to. */
  predicate Proper(c: Channel, a: Act, threads: bool) {
    match a
    case Enqueue(m) => threads && m.channelId == c.id && (c.guarded ==> !c.worker.NotStarted?)
    case Direct(m) => c.worker.NotStarted? && m.channelId == c.id
    case OpenEnd(opening) => opening.Threadless? <==> !threads
    case _ => true
  }

  lemma GuardedKeeps(c: Channel, a: Act)
    requires GuardedOk(c) && c.guarded && Allowed(c, a) && Proper(c, a, true) && !a.CloseEnd?
    ensures GuardedOk(After(c, a))
  {
    match a
    case Enqueue(m) => EnqueueKeeps(c, m);
    case Advance => AdvanceKeeps(c);
    case Direct(m) => DirectKeeps(c, m);
    case Take => PopKeeps(c);
    case Handle => HandleKeeps(c);
    case Look => FlagsKeep(c, a);
    case OpenBegin => FlagsKeep(c, a);
    case OpenEnd(_) => FlagsKeep(c, a);
    case CloseBegin => FlagsKeep(c, a);
    case Reset =>
  }

  lemma PlainKeeps(c: Channel, a: Act)
    requires Plain(c) && Allowed(c, a) && Proper(c, a, false)
    ensures Plain(After(c, a))
  {
    match a
    case Direct(m) => AllForMore(c.accepted, c.id, m);
    case _ =>
  }

  lemma ActKeeps(c: Channel, a: Act, threads: bool, mutexes: bool)
    requires ChannelOk(c, threads, mutexes) && Allowed(c, a) && Proper(c, a, threads)
    ensures ChannelOk(After(c, a), threads, mutexes)
  {
    if !threads {
      PlainKeeps(c, a);
    } else if c.guarded && !a.CloseEnd? {
      GuardedKeeps(c, a);
    }
  }

  // ---- the transport ---------------------------------------------------------------------------

  /** The transport thread finds an open channel for a request, then looks whether the channel has a worker, and queues
      the request if it has. */
  datatype Dispatcher = Free | Found(i: nat, request: Message) | Queueing(i: nat, request: Message) | Ended

  /** A driver without threads calls handlers directly. */
  datatype System = System(threads: bool, mutexes: bool, channels: seq<Channel>, dispatcher: Dispatcher)

  /** Register adds a channel; Receive, Proceed and Commit are the steps of the transport thread, Commit being each step
      of queueing; EndDispatch is its join in ac_transport_deinit. */
  datatype Event =
    | Register(id: u16)
    | Receive(request: Message)
    | Proceed
    | Commit
    | On(i: nat, act: Act)
    | EndDispatch

  /** ac_transport_find_channel. */
  function Find(channels: seq<Channel>, id: u16): (r: Option<nat>)
    ensures r.Some? ==> r.value < |channels| && channels[r.value].id == id
    ensures r.None? <==> forall i | 0 <= i < |channels| :: channels[i].id != id
  {
    if channels == [] then None
    else if channels[0].id == id then Some(0)
    else
      match Find(channels[1..], id)
      case None => assert forall i | 0 < i < |channels| :: channels[i].id == channels[1..][i - 1].id; None
      case Some(i) => Some(i + 1)
  }

  function NewChannel(id: u16, mutexes: bool): Channel {
    Channel(id, false, false, false, NotClosing, mutexes, false, NotStarted, NoPush, NEW_RING, [], [])
  }

  /** The next step of queueing. */
  function NextPush(c: Channel, m: Message): Act {
    if c.push.NoPush? then Enqueue(m) else Advance
  }

  predicate Possible(s: System, e: Event) {
    match e
    case Register(_) => true
    case Receive(_) => s.dispatcher.Free?
    case Proceed =>
      s.dispatcher.Found? && s.dispatcher.i < |s.channels|
      && Allowed(s.channels[s.dispatcher.i], Direct(s.dispatcher.request))
    case Commit =>
      s.dispatcher.Queueing? && s.dispatcher.i < |s.channels|
      && Allowed(s.channels[s.dispatcher.i], NextPush(s.channels[s.dispatcher.i], s.dispatcher.request))
    case On(i, a) =>
      !a.Enqueue? && !a.Advance? && !a.Direct? && i < |s.channels| && Allowed(s.channels[i], a)
      && (a.OpenEnd? ==> (a.opening.Threadless? <==> !s.threads))
    case EndDispatch => s.dispatcher.Free?
  }

  function On1(s: System, i: nat, a: Act): System
    requires i < |s.channels| && Allowed(s.channels[i], a)
  {
    s.(channels := s.channels[i := After(s.channels[i], a)])
  }

  /** Dispatch refuses what is not a request or has no open channel; without a worker it calls the handler. */
  function Happen(s: System, e: Event): System
    requires Possible(s, e)
  {
    match e
    case Register(id) =>
      if id == 0 || Find(s.channels, id).Some? || |s.channels| >= MAX_CHANNELS then s
      else s.(channels := s.channels + [NewChannel(id, s.mutexes)])
    case Receive(m) =>
      var found := Find(s.channels, m.channelId);
      if m.flags % 2 == 0 || found.None? || !s.channels[found.value].open then s
      else s.(dispatcher := Found(found.value, m))
    case Proceed =>
      var i, m := s.dispatcher.i, s.dispatcher.request;
      if s.channels[i].worker.NotStarted? then On1(s, i, Direct(m)).(dispatcher := Free)
      else s.(dispatcher := Queueing(i, m))
    case Commit =>
      var i := s.dispatcher.i;
      var t := On1(s, i, NextPush(s.channels[i], s.dispatcher.request));
      if t.channels[i].push.NoPush? then t.(dispatcher := Free) else t
    case On(i, a) => On1(s, i, a)
    case EndDispatch => s.(dispatcher := Ended)
  }

  ghost predicate IdsDistinct(channels: seq<Channel>) {
    forall i, j | 0 <= i < j < |channels| :: channels[i].id != channels[j].id
  }

  ghost predicate DispatchOk(s: System) {
    s.dispatcher.Found? || s.dispatcher.Queueing? ==>
      var i := s.dispatcher.i;
      && i < |s.channels| && s.dispatcher.request.channelId == s.channels[i].id
      && (s.dispatcher.Queueing? ==> s.threads && (s.channels[i].guarded ==> !s.channels[i].worker.NotStarted?))
  }

  /** A request is being queued only by the transport thread. */
  ghost predicate PushesOk(s: System) {
    forall i | 0 <= i < |s.channels| && !s.channels[i].push.NoPush? ::
      s.dispatcher == Queueing(i, s.channels[i].push.request)
  }

  ghost predicate SystemOk(s: System) {
    && (forall i | 0 <= i < |s.channels| :: ChannelOk(s.channels[i], s.threads, s.mutexes))
    && IdsDistinct(s.channels) && DispatchOk(s) && PushesOk(s)
  }

  /** One step of one channel, by whomever. */
  lemma On1Keeps(s: System, i: nat, a: Act)
    requires SystemOk(s) && i < |s.channels| && Allowed(s.channels[i], a) && Proper(s.channels[i], a, s.threads)
    ensures var t := On1(s, i, a);
      && (forall k | 0 <= k < |t.channels| :: ChannelOk(t.channels[k], t.threads, t.mutexes))
      && IdsDistinct(t.channels) && t.channels[i].id == s.channels[i].id
  {
    ActKeeps(s.channels[i], a, s.threads, s.mutexes);
    var t := On1(s, i, a);
    assert forall k | 0 <= k < |t.channels| ::
      t.channels[k] == if k == i then After(s.channels[i], a) else s.channels[k];
  }

  lemma RegisterKeeps(s: System, id: u16)
    requires SystemOk(s)
    ensures SystemOk(Happen(s, Register(id)))
  {
    var t := Happen(s, Register(id));
    NewIsOk(id, s.threads, s.mutexes);
    assert forall i | 0 <= i < |t.channels| ::
      t.channels[i] == if i < |s.channels| then s.channels[i] else NewChannel(id, s.mutexes);
  }

  lemma NewIsOk(id: u16, threads: bool, mutexes: bool)
    ensures ChannelOk(NewChannel(id, mutexes), threads, mutexes) && HandledOnce(NewChannel(id, mutexes))
  {}

  lemma ProceedKeeps(s: System)
    requires SystemOk(s) && Possible(s, Proceed)
    ensures SystemOk(Happen(s, Proceed))
  {
    var i, m := s.dispatcher.i, s.dispatcher.request;
    if s.channels[i].worker.NotStarted? {
      On1Keeps(s, i, Direct(m));
    }
  }

  lemma CommitKeeps(s: System)
    requires SystemOk(s) && Possible(s, Commit)
    ensures SystemOk(Happen(s, Commit))
  {
    var i := s.dispatcher.i;
    var a := NextPush(s.channels[i], s.dispatcher.request);
    On1Keeps(s, i, a);
  }

  lemma OnKeeps(s: System, i: nat, a: Act)
    requires SystemOk(s) && Possible(s, On(i, a))
    ensures SystemOk(Happen(s, On(i, a)))
  {
    On1Keeps(s, i, a);
  }

  lemma HappenKeeps(s: System, e: Event)
    requires SystemOk(s) && Possible(s, e)
    ensures SystemOk(Happen(s, e))
  {
    match e
    case Register(id) => RegisterKeeps(s, id);
    case Receive(m) =>
    case Proceed => ProceedKeeps(s);
    case Commit => CommitKeeps(s);
    case On(i, a) => OnKeeps(s, i, a);
    case EndDispatch =>
  }

  ghost predicate IsRun(s: System, events: seq<Event>)
    decreases |events|
  {
    events == [] || (Possible(s, events[0]) && IsRun(Happen(s, events[0]), events[1..]))
  }

  ghost function AfterAll(s: System, events: seq<Event>): System
    requires IsRun(s, events)
    decreases |events|
  {
    if events == [] then s else AfterAll(Happen(s, events[0]), events[1..])
  }

  lemma {:induction false} RunKeeps(s: System, events: seq<Event>)
    requires SystemOk(s) && IsRun(s, events)
    ensures SystemOk(AfterAll(s, events))
    ensures AfterAll(s, events).threads == s.threads && AfterAll(s, events).mutexes == s.mutexes
    decreases |events|
  {
    if events != [] {
      HappenKeeps(s, events[0]);
      RunKeeps(Happen(s, events[0]), events[1..]);
    }
  }

  function Begin(threads: bool, mutexes: bool): System { System(threads, mutexes, [], Free) }

  /** In every interleaving of dispatch, workers, opens and closes, a channel has each accepted request in exactly one
      place, in order, until a close of it has joined the worker; without threads for ever. */
  lemma ExactlyOnce(threads: bool, mutexes: bool, events: seq<Event>, i: nat)
    requires threads ==> mutexes
    requires IsRun(Begin(threads, mutexes), events) && i < |AfterAll(Begin(threads, mutexes), events).channels|
    ensures var c := AfterAll(Begin(threads, mutexes), events).channels[i];
      (threads && c.ended) || HandledOnce(c)
  {
    RunKeeps(Begin(threads, mutexes), events);
    var c := AfterAll(Begin(threads, mutexes), events).channels[i];
    assert ChannelOk(c, threads, mutexes);
    if !threads {
      assert c.handled + [] == c.handled;
    }
  }

  lemma {:induction false} RunsJoin(s: System, a: seq<Event>, b: seq<Event>)
    requires IsRun(s, a) && IsRun(AfterAll(s, a), b)
    ensures IsRun(s, a + b) && AfterAll(s, a + b) == AfterAll(AfterAll(s, a), b)
    decreases |a|
  {
    if a == [] {
      assert a + b == b;
    } else {
      RunsJoin(Happen(s, a[0]), a[1..], b);
      FirstEvent(s, a[0], a[1..] + b);
      assert a + b == [a[0]] + (a[1..] + b);
    }
  }

  lemma FirstEvent(s: System, e: Event, events: seq<Event>)
    requires Possible(s, e) && IsRun(Happen(s, e), events)
    ensures IsRun(s, [e] + events) && AfterAll(s, [e] + events) == AfterAll(Happen(s, e), events)
  {
    assert ([e] + events)[1..] == events;
  }
}
