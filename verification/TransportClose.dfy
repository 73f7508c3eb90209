/** Closing channels: all of them when the transport stops, and one of them while it runs. */
module TransportClose {
  import opened Wrappers
  import opened Bytes
  import opened Transport
  import opened TransportRing
  import opened TransportChannels

  // ---- deinit ----------------------------------------------------------------------------------

  /** ac_transport_deinit joins the transport thread before it closes any channel. */
  predicate Orderly(s: System, e: Event) {
    e.On? && e.act.CloseBegin? ==> s.dispatcher.Ended?
  }

  ghost predicate IsOrderlyRun(s: System, events: seq<Event>)
    decreases |events|
  {
    events == []
    || (Possible(s, events[0]) && Orderly(s, events[0]) && IsOrderlyRun(Happen(s, events[0]), events[1..]))
  }

  /** Nothing is queued, or on its way into or out of the queue, and everything accepted was handled. */
  predicate Drained(c: Channel) {
    c.push.NoPush? && c.ring.count == 0 && !Popping(c.worker) && !c.worker.Handling? && c.handled == c.accepted
  }

  /** A channel of a transport of which no channel is closed before its thread has ended. */
  ghost predicate OrderlyChannel(c: Channel, over: bool) {
    && (!c.closing.NotClosing? || c.ended ==> over)
    && (over ==> c.push.NoPush?)
    && (c.worker.Exited? ==> c.ring.count == 0)
    && (!c.guarded ==> c.ended && Drained(c))
  }

  ghost predicate OrderlyOk(s: System) {
    SystemOk(s) && s.threads && s.mutexes
    && forall i | 0 <= i < |s.channels| :: OrderlyChannel(s.channels[i], s.dispatcher.Ended?)
  }

  /** A guarded channel whose worker has ended with an empty ring has handled everything. */
  lemma EmptyIsDrained(c: Channel)
    requires GuardedOk(c) && !Live(c) && c.ring.count == 0 && c.push.NoPush?
    ensures Drained(c)
  {
    assert Queued(Settled(c)) == [] && c.handled + [] == c.handled;
  }

  lemma OrderlyActs(c: Channel, a: Act, over: bool)
    requires ChannelOk(c, true, true) && OrderlyChannel(c, over) && Allowed(c, a) && Proper(c, a, true)
    requires a.CloseBegin? ==> over
    requires a.Enqueue? || a.Advance? || a.Direct? ==> !over
    ensures OrderlyChannel(After(c, a), over)
  {
    match a
    case CloseEnd => if c.guarded { EmptyIsDrained(c); }
    case Look =>
    case Take =>
    case Advance =>
    case OpenEnd(_) =>
    case Reset =>
    case _ =>
  }

  lemma OrderlyOn1(s: System, i: nat, a: Act)
    requires OrderlyOk(s) && i < |s.channels| && Allowed(s.channels[i], a) && Proper(s.channels[i], a, true)
    requires a.CloseBegin? ==> s.dispatcher.Ended?
    requires a.Enqueue? || a.Advance? || a.Direct? ==> !s.dispatcher.Ended?
    ensures var t := On1(s, i, a);
      forall k | 0 <= k < |t.channels| :: OrderlyChannel(t.channels[k], s.dispatcher.Ended?)
  {
    OrderlyActs(s.channels[i], a, s.dispatcher.Ended?);
    var t := On1(s, i, a);
    assert forall k | 0 <= k < |t.channels| ::
      t.channels[k] == if k == i then After(s.channels[i], a) else s.channels[k];
  }

  lemma OrderlyKeeps(s: System, e: Event)
    requires OrderlyOk(s) && Possible(s, e) && Orderly(s, e)
    ensures OrderlyOk(Happen(s, e))
  {
    HappenKeeps(s, e);
    match e
    case Register(id) =>
    case Receive(m) =>
    case Proceed =>
      if s.channels[s.dispatcher.i].worker.NotStarted? {
        OrderlyOn1(s, s.dispatcher.i, Direct(s.dispatcher.request));
      }
    case Commit => OrderlyOn1(s, s.dispatcher.i, NextPush(s.channels[s.dispatcher.i], s.dispatcher.request));
    case On(i, a) => OrderlyOn1(s, i, a);
    case EndDispatch =>
  }

  lemma {:induction false} OrderlyRunKeeps(s: System, events: seq<Event>)
    requires SystemOk(s) && (s.threads ==> OrderlyOk(s)) && IsOrderlyRun(s, events)
    ensures IsRun(s, events) && SystemOk(AfterAll(s, events)) && AfterAll(s, events).threads == s.threads
    ensures s.threads ==> OrderlyOk(AfterAll(s, events))
    decreases |events|
  {
    if events != [] {
      HappenKeeps(s, events[0]);
      if s.threads {
        OrderlyKeeps(s, events[0]);
      }
      OrderlyRunKeeps(Happen(s, events[0]), events[1..]);
    }
  }

  /** When every close comes after the transport thread was joined, every channel whose worker has ended has handled
      every request it accepted, once and in order, however often it was opened and closed. */
  lemma DeinitHandlesAll(threads: bool, mutexes: bool, events: seq<Event>, i: nat)
    requires (threads ==> mutexes) && IsOrderlyRun(Begin(threads, mutexes), events)
    ensures IsRun(Begin(threads, mutexes), events)
    ensures var s := AfterAll(Begin(threads, mutexes), events);
      i < |s.channels| && !Live(s.channels[i]) ==> s.channels[i].handled == s.channels[i].accepted
  {
    OrderlyRunKeeps(Begin(threads, mutexes), events);
    var s := AfterAll(Begin(threads, mutexes), events);
    if i < |s.channels| && !Live(s.channels[i]) {
      var c := s.channels[i];
      assert ChannelOk(c, s.threads, s.mutexes);
      if threads && c.guarded {
        assert OrderlyChannel(c, s.dispatcher.Ended?);
        EmptyIsDrained(c);
      }
    }
  }

  // ---- one close while the transport runs ----------------------------------------------------------

  /** A run that ends with the event that ends the close in progress. */
  ghost predicate Completes(s: System, i: nat, events: seq<Event>)
    decreases |events|
  {
    events != [] && Possible(s, events[0]) && var t := Happen(s, events[0]);
      i < |t.channels|
      && if t.channels[i].closing.NotClosing? then events[1..] == [] else Completes(t, i, events[1..])
  }

  lemma {:induction false} CompletesIsRun(s: System, i: nat, events: seq<Event>)
    requires Completes(s, i, events)
    ensures IsRun(s, events) && i < |AfterAll(s, events).channels|
    decreases |events|
  {
    var t := Happen(s, events[0]);
    if !t.channels[i].closing.NotClosing? {
      CompletesIsRun(t, i, events[1..]);
    }
  }

  /** From the flags a close sets to the last field it clears, with anything in between. */
  ghost predicate IsClose(s: System, i: nat, events: seq<Event>) {
    i < |s.channels| && events != [] && events[0] == On(i, CloseBegin) && Possible(s, events[0])
    && Completes(Happen(s, events[0]), i, events[1..])
  }

  /** The transport thread has found the channel for a request. */
  predicate OnIt(s: System, i: nat) {
    (s.dispatcher.Found? || s.dispatcher.Queueing?) && s.dispatcher.i == i
  }

  /** The transport thread has found the channel for a request and the worker may leave before it is queued: either
      the mutex is not taken yet, or nothing else is queued and the worker is not about to take a request. */
  predicate Endangered(s: System, i: nat)
    requires i < |s.channels|
  {
    var c := s.channels[i];
    OnIt(s, i) && !c.worker.NotStarted? && (c.push.NoPush? || (c.ring.count == 0 && !c.worker.Taking?))
  }

  /** A close that will lose nothing. */
  ghost predicate Sheltered(s: System, i: nat) {
    SystemOk(s) && s.threads && i < |s.channels| && var c := s.channels[i];
      !c.open && !c.opening && match c.closing
        case NotClosing => false
        case Joining =>
          && c.guarded && c.stop
          && if OnIt(s, i) then
              c.worker.NotStarted? || (Live(c) && !c.push.NoPush? && (c.ring.count > 0 || c.worker.Taking?))
            else c.worker.Exited? ==> c.ring.count == 0
        case _ => c.worker.NotStarted? && c.handled == c.accepted && !(s.dispatcher.Queueing? && s.dispatcher.i == i)
  }

  /** What one step of its own makes of a sheltered channel. */
  lemma ShelteredActs(s: System, i: nat, a: Act)
    requires Sheltered(s, i) && Possible(s, On(i, a))
    ensures var t := Happen(s, On(i, a));
      if t.channels[i].closing.NotClosing? then t.channels[i].handled == t.channels[i].accepted else Sheltered(t, i)
  {
    var c := s.channels[i];
    HappenKeeps(s, On(i, a));
    assert ChannelOk(c, true, s.mutexes);
    match a
    case CloseEnd =>
      if !OnIt(s, i) || c.worker.NotStarted? {
        EmptyIsDrained(c);
      }
    case Look =>
    case Take =>
    case Handle =>
    case Reset =>
    case _ =>
  }

  lemma ShelteredCommits(s: System, i: nat)
    requires Sheltered(s, i) && Possible(s, Commit) && s.dispatcher.i == i
    ensures Sheltered(Happen(s, Commit), i)
  {
    HappenKeeps(s, Commit);
    assert ChannelOk(s.channels[i], true, s.mutexes);
  }

  lemma ShelteredProceeds(s: System, i: nat)
    requires Sheltered(s, i) && Possible(s, Proceed) && s.dispatcher.i == i
    ensures Sheltered(Happen(s, Proceed), i)
  {
    HappenKeeps(s, Proceed);
    assert ChannelOk(s.channels[i], true, s.mutexes);
  }

  lemma ShelteredOthers(s: System, i: nat, e: Event)
    requires Sheltered(s, i) && Possible(s, e) && !(e.On? && e.i == i)
    requires e.Commit? || e.Proceed? ==> s.dispatcher.i != i
    ensures Sheltered(Happen(s, e), i)
  {
    HappenKeeps(s, e);
    assert Happen(s, e).channels[i] == s.channels[i];
  }

  lemma ShelteredKeeps(s: System, i: nat, e: Event)
    requires Sheltered(s, i) && Possible(s, e)
    ensures var t := Happen(s, e);
      i < |t.channels|
      && if t.channels[i].closing.NotClosing? then t.channels[i].handled == t.channels[i].accepted else Sheltered(t, i)
  {
    if e.On? && e.i == i {
      ShelteredActs(s, i, e.act);
    } else if e.Commit? && s.dispatcher.i == i {
      ShelteredCommits(s, i);
    } else if e.Proceed? && s.dispatcher.i == i {
      ShelteredProceeds(s, i);
    } else {
      ShelteredOthers(s, i, e);
    }
  }

  lemma {:induction false} ShelteredRun(s: System, i: nat, events: seq<Event>)
    requires Sheltered(s, i) && Completes(s, i, events)
    ensures IsRun(s, events)
    ensures var t := AfterAll(s, events); i < |t.channels| && t.channels[i].handled == t.channels[i].accepted
    decreases |events|
  {
    ShelteredKeeps(s, i, events[0]);
    var t := Happen(s, events[0]);
    if !t.channels[i].closing.NotClosing? {
      ShelteredRun(t, i, events[1..]);
    }
  }

  /** A close of a channel that has its mutex and is not endangered has handled everything the channel accepted, in
      every interleaving. */
  lemma CalmCloseKeepsAll(s: System, i: nat, events: seq<Event>)
    requires SystemOk(s) && s.threads && i < |s.channels| && s.channels[i].guarded && !Endangered(s, i)
    requires IsClose(s, i, events)
    ensures IsRun(s, events)
    ensures var t := AfterAll(s, events); i < |t.channels| && t.channels[i].handled == t.channels[i].accepted
  {
    HappenKeeps(s, events[0]);
    assert ChannelOk(s.channels[i], true, s.mutexes);
    ShelteredRun(Happen(s, events[0]), i, events[1..]);
  }

  // Otherwise there is a run of the close that loses a request.

  /** How far the worker is from leaving. */
  function Steps(w: Worker, count: nat): nat {
    match w
    case Handling(_) => 9
    case Looking => 7
    case Taking => if count == 0 then 8 else 6
    case Took(_) => 5
    case HeadMoved(_) => 4
    case Uncounted(_, _) => 3
    case _ => 0
  }

  /** How far the transport thread is from having queued its request. */
  function Remaining(d: Dispatcher, p: Pushing): nat {
    match p
    case NoPush => if d.Found? then 5 else if d.Queueing? then 4 else 0
    case Written(_) => 3
    case TailMoved(_) => 2
    case Counted(_, _) => 1
  }

  function Left(c: ClosePhase): nat {
    match c
    case NotClosing => 0
    case Joining => 4
    case ClearCount => 3
    case ClearHead => 2
    case ClearTail => 1
  }

  /** A close that can still lose a request: the worker can leave before the request is queued, it has left and the
      request is queued, or the ring is being cleared and a request was not handled. */
  ghost predicate Doomed(s: System, i: nat) {
    SystemOk(s) && s.threads && i < |s.channels| && var c := s.channels[i];
      !c.opening && match c.closing
        case NotClosing => false
        case Joining =>
          if OnIt(s, i) then Leaving(c)
          else c.guarded && c.worker.Exited? && c.ring.count > 0
        case _ => c.handled != c.accepted
  }

  /** The worker's next step. */
  function Turn(w: Worker): Act
    requires !w.NotStarted? && !w.Exited?
  {
    match w
    case Looking => Look
    case Handling(_) => Handle
    case _ => Take
  }

  /** The worker leaves, the transport thread queues, the ring is cleared. */
  function NextLoss(s: System, i: nat): Event
    requires i < |s.channels|
  {
    var c := s.channels[i];
    if !c.closing.Joining? then On(i, Reset)
    else if Live(c) then On(i, Turn(c.worker))
    else if s.dispatcher.Found? && OnIt(s, i) then Proceed
    else if OnIt(s, i) then Commit
    else On(i, CloseEnd)
  }

  /** What is still queued when the worker has left was not handled. */
  lemma QueuedIsUnhandled(c: Channel)
    requires GuardedOk(c) && c.worker.Exited? && c.ring.count > 0
    ensures c.handled != c.accepted
  {
    assert |Queued(Settled(c))| == c.ring.count;
  }

  ghost predicate Nearer(s: System, t: System, i: nat)
    requires i < |s.channels| && i < |t.channels|
  {
    var c, d := s.channels[i], t.channels[i];
    || Left(d.closing) < Left(c.closing)
    || (d.closing == c.closing && Live(c) && !Live(d))
    || (d.closing == c.closing && Live(c) && Live(d)
      && (d.ring.count < c.ring.count
        || (d.ring.count == c.ring.count && Steps(d.worker, d.ring.count) < Steps(c.worker, c.ring.count))))
    || (d.closing == c.closing && !Live(c) && !Live(d)
      && Remaining(t.dispatcher, d.push) < Remaining(s.dispatcher, c.push))
  }

  /** The worker can leave before the request under way is queued. */
  predicate Leaving(c: Channel) {
    c.guarded && c.stop && !c.opening && c.closing.Joining? && !c.worker.NotStarted?
    && (c.worker.Exited? ==> c.ring.count == 0) && (c.push.NoPush? || (c.ring.count == 0 && !c.worker.Taking?))
  }

  predicate Closer(c: Channel, d: Channel) {
    !Live(d) || d.ring.count < c.ring.count
    || (d.ring.count == c.ring.count && Steps(d.worker, d.ring.count) < Steps(c.worker, c.ring.count))
  }

  lemma PopLeaves(c: Channel)
    requires GuardedOk(c) && Shape(c.ring) && Leaving(c) && (Popping(c.worker) || c.worker.Taking?)
    ensures Allowed(c, Take) && Leaving(Popped(c)) && Closer(c, Popped(c))
  {}

  lemma TurnLeaves(c: Channel)
    requires GuardedOk(c) && Shape(c.ring) && Leaving(c) && Live(c)
    ensures Allowed(c, Turn(c.worker)) && Leaving(After(c, Turn(c.worker))) && Closer(c, After(c, Turn(c.worker)))
  {
    if !c.worker.Looking? && !c.worker.Handling? {
      PopLeaves(c);
    }
  }

  lemma WorkerLeaves(s: System, i: nat)
    requires Doomed(s, i) && s.channels[i].closing.Joining? && Live(s.channels[i])
    ensures var e := NextLoss(s, i); Possible(s, e) && Doomed(Happen(s, e), i) && Nearer(s, Happen(s, e), i)
  {
    assert ChannelOk(s.channels[i], true, s.mutexes);
    TurnLeaves(s.channels[i]);
    HappenKeeps(s, NextLoss(s, i));
  }

  /** The steps of queueing when the worker has left. */
  lemma PushComes(c: Channel, m: Message)
    requires GuardedOk(c) && Shape(c.ring) && Leaving(c) && c.worker.Exited?
    ensures Allowed(c, NextPush(c, m))
    ensures var d := After(c, NextPush(c, m));
      && d.worker.Exited? && d.closing.Joining? && d.guarded && d.stop && !d.opening
      && (if d.push.NoPush? then d.ring.count > 0 else d.ring.count == 0)
      && (d.push.NoPush? || Remaining(Queueing(0, m), d.push) < Remaining(Queueing(0, m), c.push))
  {}

  lemma RequestComes(s: System, i: nat)
    requires Doomed(s, i) && s.channels[i].closing.Joining? && !Live(s.channels[i]) && OnIt(s, i)
    ensures var e := NextLoss(s, i); Possible(s, e) && Doomed(Happen(s, e), i) && Nearer(s, Happen(s, e), i)
  {
    assert ChannelOk(s.channels[i], true, s.mutexes);
    PushComes(s.channels[i], s.dispatcher.request);
    HappenKeeps(s, NextLoss(s, i));
  }

  lemma RingGoes(s: System, i: nat)
    requires Doomed(s, i) && (s.channels[i].closing.Joining? ==> !Live(s.channels[i]) && !OnIt(s, i))
    ensures var e := NextLoss(s, i);
      Possible(s, e) && var t := Happen(s, e);
      i < |t.channels| && Left(t.channels[i].closing) < Left(s.channels[i].closing)
      && t.channels[i].handled != t.channels[i].accepted && (t.channels[i].closing.NotClosing? || Doomed(t, i))
  {
    var e := NextLoss(s, i);
    assert ChannelOk(s.channels[i], true, s.mutexes);
    HappenKeeps(s, e);
    if s.channels[i].closing.Joining? {
      QueuedIsUnhandled(s.channels[i]);
    }
  }

  lemma {:induction false} DoomedLoses(s: System, i: nat) returns (events: seq<Event>)
    requires Doomed(s, i)
    ensures Completes(s, i, events) && IsRun(s, events)
    ensures var t := AfterAll(s, events); i < |t.channels| && t.channels[i].handled != t.channels[i].accepted
    decreases Left(s.channels[i].closing), Live(s.channels[i]),
      if Live(s.channels[i]) then s.channels[i].ring.count else 0,
      if Live(s.channels[i]) then Steps(s.channels[i].worker, s.channels[i].ring.count) else 0,
      Remaining(s.dispatcher, s.channels[i].push)
  {
    var c, e := s.channels[i], NextLoss(s, i);
    if c.closing.Joining? && Live(c) {
      WorkerLeaves(s, i);
    } else if c.closing.Joining? && OnIt(s, i) {
      RequestComes(s, i);
    } else {
      RingGoes(s, i);
    }
    var t := Happen(s, e);
    var rest := [];
    if !t.channels[i].closing.NotClosing? {
      rest := DoomedLoses(t, i);
    }
    FirstEvent(s, e, rest);
    events := [e] + rest;
    assert events[1..] == rest;
  }

  lemma EndangeredLoses(s: System, i: nat) returns (events: seq<Event>)
    requires SystemOk(s) && s.threads && i < |s.channels| && s.channels[i].guarded
    requires Possible(s, On(i, CloseBegin)) && Endangered(s, i)
    ensures IsClose(s, i, events) && IsRun(s, events)
    ensures var t := AfterAll(s, events); i < |t.channels| && t.channels[i].handled != t.channels[i].accepted
  {
    var e := On(i, CloseBegin);
    HappenKeeps(s, e);
    assert ChannelOk(s.channels[i], true, s.mutexes);
    var rest := DoomedLoses(Happen(s, e), i);
    FirstEvent(s, e, rest);
    events := [e] + rest;
    assert events[1..] == rest;
  }

  ghost predicate ClosesWithLoss(s: System, i: nat, events: seq<Event>) {
    IsClose(s, i, events) && IsRun(s, events) && var t := AfterAll(s, events);
      i < |t.channels| && t.channels[i].handled != t.channels[i].accepted
  }

  /** Some interleaving of the close of a channel with its mutex leaves an accepted request unhandled exactly if the
      channel is endangered when the close begins. */
  lemma CloseLosesExactly(s: System, i: nat)
    requires SystemOk(s) && s.threads && i < |s.channels| && s.channels[i].guarded
    requires Possible(s, On(i, CloseBegin))
    ensures (exists events :: ClosesWithLoss(s, i, events)) <==> Endangered(s, i)
  {
    if Endangered(s, i) {
      var events := EndangeredLoses(s, i);
      assert ClosesWithLoss(s, i, events);
    } else {
      forall events | IsClose(s, i, events)
        ensures !ClosesWithLoss(s, i, events)
      {
        CalmCloseKeepsAll(s, i, events);
      }
    }
  }
}
