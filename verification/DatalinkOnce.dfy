/**
 * How often a packet is delivered. No receive call remembers the link sequences of earlier ones, so repeated
 * fragments are stored again; the deliveries of a packet are counted against what a run stored, read and wrote.
 */
module DatalinkOnce {
  import opened Wrappers
  import opened Bytes
  import opened DatalinkFrame
  import opened DatalinkPacket
  import opened DatalinkArq

  // ---- counting in one station -------------------------------------------------------------------

  /** How often packet q was delivered. */
  function Times(delivered: seq<(u32, seq<byte>)>, q: u32): nat {
    if delivered == [] then 0
    else Times(delivered[..|delivered| - 1], q) + if delivered[|delivered| - 1].0 == q then 1 else 0
  }

  /** A receive call stored all fragments of packet q, in order and nothing else. */
  ghost predicate IsWhole(call: seq<Frame>, q: u32, p: Station) {
    q in p.packets && IsPacket(p.packets[q])
    && call == Fragments(q, p.packets[q], p.cap, FragmentCount(|p.packets[q]|, p.cap))
  }

  /** How many receive calls did. */
  ghost function WholeCalls(calls: seq<seq<Frame>>, q: u32, p: Station): nat {
    if calls == [] then 0
    else WholeCalls(calls[..|calls| - 1], q, p) + if IsWhole(calls[|calls| - 1], q, p) then 1 else 0
  }

  predicate Begins(call: seq<Frame>, q: u32) { call != [] && call[0].linkSequence == q }

  /** How many receive calls stored a fragment of packet q. */
  function Starts(calls: seq<seq<Frame>>, q: u32): nat {
    if calls == [] then 0
    else Starts(calls[..|calls| - 1], q) + if Begins(calls[|calls| - 1], q) then 1 else 0
  }

  lemma {:induction false} WholeStarts(calls: seq<seq<Frame>>, q: u32, p: Station)
    ensures WholeCalls(calls, q, p) <= Starts(calls, q)
  {
    if calls != [] {
      WholeStarts(calls[..|calls| - 1], q, p);
    }
  }

  lemma TimesAppend(delivered: seq<(u32, seq<byte>)>, d: (u32, seq<byte>), q: u32)
    ensures Times(delivered + [d], q) == Times(delivered, q) + if d.0 == q then 1 else 0
  {
    assert (delivered + [d])[..|delivered|] == delivered;
  }

  /** Only the last call changes. */
  lemma LastCall(calls: seq<seq<Frame>>, call: seq<Frame>, q: u32, p: Station)
    requires calls != []
    ensures var n := |calls| - 1; var calls' := calls[n := call];
      && WholeCalls(calls', q, p) == WholeCalls(calls[..n], q, p) + (if IsWhole(call, q, p) then 1 else 0)
      && Starts(calls', q) == Starts(calls[..n], q) + if Begins(call, q) then 1 else 0
  {
    var n := |calls| - 1;
    assert calls[n := call][..n] == calls[..n];
  }

  lemma NewCall(calls: seq<seq<Frame>>, q: u32, p: Station)
    ensures WholeCalls(calls + [[]], q, p) == WholeCalls(calls, q, p) && Starts(calls + [[]], q) == Starts(calls, q)
  {
    assert (calls + [[]])[..|calls|] == calls;
  }

  // ---- one step ----------------------------------------------------------------------------------

  /** The first fragment of packet q is handed to a receive call. */
  predicate ReadsFirst(a: Action, q: u32) {
    a.Arrive? && a.frame.Some? && IsData(a.frame.value) && a.frame.value.linkSequence == q
    && a.frame.value.fragmentIndex == 0
  }

  predicate Answers(a: Action) { a.Arrive? ==> a.answered }

  /** From s to t, packet q is delivered at most as often as its whole calls grew, and just so if the ACKs were
      written; and a call begins with q only if it read its first fragment. */
  ghost predicate Tallies(s: Station, t: Station, p: Station, q: u32, answered: bool, first: bool) {
    && Times(t.delivered, q) + WholeCalls(s.calls, q, p) <= WholeCalls(t.calls, q, p) + Times(s.delivered, q)
    && (answered ==>
      Times(t.delivered, q) + WholeCalls(s.calls, q, p) == WholeCalls(t.calls, q, p) + Times(s.delivered, q))
    && Starts(t.calls, q) <= Starts(s.calls, q) + if first then 1 else 0
  }

  lemma StoredTallies(s: Station, p: Station, first: Frame, buffer: seq<byte>, f: Frame, answered: bool, q: u32)
    requires Half(s, p) && |s.calls| > 0
    requires var stored := s.calls[|s.calls| - 1];
      Extended(stored, f, buffer, p) && first == (stored + [f])[0] && first.transportSize <= |buffer|
      && |stored| < FragmentCount(|p.packets[f.linkSequence]|, p.cap)
    ensures var stored := s.calls[|s.calls| - 1];
      Tallies(s, Stored(s, first, |stored|, buffer, f, answered), p, q, answered,
        stored == [] && f.linkSequence == q)
  {
    var stored := s.calls[|s.calls| - 1];
    var t := Stored(s, first, |stored|, buffer, f, answered);
    CollectedNext(stored, f, buffer, p);
    LastCall(s.calls, stored + [f], q, p);
    LastCall(s.calls, stored, q, p);
    assert s.calls[|s.calls| - 1 := stored] == s.calls;
    TimesAppend(s.delivered, (first.linkSequence, buffer[..first.transportSize]), q);
    WholeIsComplete(stored, f.linkSequence, q, p);
    WholeIsComplete(stored + [f], f.linkSequence, q, p);
  }

  /** What was collected of a packet is whole exactly if no fragment is missing. */
  lemma WholeIsComplete(stored: seq<Frame>, own: u32, q: u32, p: Station)
    requires Collected(stored, p.packets, p.cap) && (stored != [] ==> stored[0].linkSequence == own)
    ensures IsWhole(stored, q, p) <==>
      stored != [] && q == own && |stored| == FragmentCount(|p.packets[own]|, p.cap)
  {
    if IsWhole(stored, q, p) {
      assert |stored| == FragmentCount(|p.packets[q]|, p.cap) > 0;
      assert stored[0] == Fragment(q, p.packets[q], p.cap, 0);
    }
  }

  lemma ArriveTallies(s: Station, p: Station, f: Frame, answered: bool, q: u32)
    requires Half(s, p) && Half(p, s) && Enabled(s, Arrive(Some(f), answered)) && f in p.wire
    ensures Tallies(s, Step(s, Arrive(Some(f), answered)), p, q, answered, ReadsFirst(Arrive(Some(f), answered), q))
  {
    if s.call.First? {
      FirstTallies(s, p, f, answered, q);
    } else {
      NextTallies(s, p, f, answered, q);
    }
  }

  lemma FirstTallies(s: Station, p: Station, f: Frame, answered: bool, q: u32)
    requires Half(s, p) && Half(p, s) && Enabled(s, Arrive(Some(f), answered)) && f in p.wire && s.call.First?
    ensures Tallies(s, Step(s, Arrive(Some(f), answered)), p, q, answered, ReadsFirst(Arrive(Some(f), answered), q))
  {
    if OnFirst(s.call.buffer, f).Accept? {
      FirstExtends(s, p, f);
      StoredTallies(s, p, f, OnFirst(s.call.buffer, f).buffer, f, answered, q);
    }
  }

  lemma NextTallies(s: Station, p: Station, f: Frame, answered: bool, q: u32)
    requires Half(s, p) && Half(p, s) && Enabled(s, Arrive(Some(f), answered)) && f in p.wire && s.call.Next?
    ensures Tallies(s, Step(s, Arrive(Some(f), answered)), p, q, answered, ReadsFirst(Arrive(Some(f), answered), q))
  {
    var c := s.call;
    if OnNext(c.first, c.expected, c.buffer, f).Accept? {
      NextExtends(s, p, f);
      StoredTallies(s, p, c.first, OnNext(c.first, c.expected, c.buffer, f).buffer, f, answered, q);
    }
  }

  lemma StepTallies(s: Station, p: Station, a: Action, q: u32)
    requires Half(s, p) && Half(p, s) && Enabled(s, a) && FromPeer(p, a)
    ensures Tallies(s, Step(s, a), p, q, Answers(a), ReadsFirst(a, q))
  {
    match a
    case Arrive(Some(f), answered) => ArriveTallies(s, p, f, answered, q);
    case Listen(_) => NewCall(s.calls, q, p);
    case _ =>
  }

  /** A step of the peer changes no count. */
  lemma {:induction false} PeerKeepsWhole(s: Station, calls: seq<seq<Frame>>, p: Station, p': Station, q: u32)
    requires Grows(p, p') && forall k | 0 <= k < |calls| :: Collected(calls[k], p.packets, p.cap)
    ensures WholeCalls(calls, q, p') == WholeCalls(calls, q, p)
    decreases |calls|
  {
    if calls != [] {
      PeerKeepsWhole(s, calls[..|calls| - 1], p, p', q);
      var call := calls[|calls| - 1];
      assert Collected(call, p.packets, p.cap);
      assert Collected(call, p'.packets, p'.cap);
      var own := if call == [] then q else call[0].linkSequence;
      WholeIsComplete(call, own, q, p);
      WholeIsComplete(call, own, q, p');
    }
  }

  // ---- whole runs --------------------------------------------------------------------------------

  /** How often the first fragment of packet q was handed to a receive call of this station. */
  function FirstReads(events: seq<Event>, onLeft: bool, q: u32): nat {
    if events == [] then 0
    else
      (if events[0].onLeft == onLeft && ReadsFirst(events[0].action, q) then 1 else 0)
      + FirstReads(events[1..], onLeft, q)
  }

  /** No ACK write of this station failed. */
  predicate AllAnswered(events: seq<Event>, onLeft: bool) {
    forall i | 0 <= i < |events| :: events[i].onLeft == onLeft ==> Answers(events[i].action)
  }

  ghost function Whole(w: World, onLeft: bool, q: u32): nat {
    WholeCalls(Here(w, onLeft).calls, q, There(w, onLeft))
  }

  function Deliveries(w: World, onLeft: bool, q: u32): nat { Times(Here(w, onLeft).delivered, q) }

  function Started(w: World, onLeft: bool, q: u32): nat { Starts(Here(w, onLeft).calls, q) }

  /** From w to t, the deliveries of packet q and the calls that stored it; its first fragment was read so often. */
  ghost predicate Moves(w: World, t: World, onLeft: bool, q: u32, answered: bool, firsts: nat) {
    && Deliveries(t, onLeft, q) + Whole(w, onLeft, q) <= Whole(t, onLeft, q) + Deliveries(w, onLeft, q)
    && (answered ==>
      Deliveries(t, onLeft, q) + Whole(w, onLeft, q) == Whole(t, onLeft, q) + Deliveries(w, onLeft, q))
    && Started(t, onLeft, q) <= Started(w, onLeft, q) + firsts
  }

  lemma MovesTwice(w: World, t: World, u: World, onLeft: bool, q: u32, a: bool, m: nat, b: bool, n: nat)
    requires Moves(w, t, onLeft, q, a, m) && Moves(t, u, onLeft, q, b, n)
    ensures Moves(w, u, onLeft, q, a && b, m + n)
  {}

  lemma EventTallies(w: World, e: Event, onLeft: bool, q: u32)
    requires Sound(w) && Possible(w, e)
    ensures Moves(w, Happen(w, e), onLeft, q, e.onLeft == onLeft ==> Answers(e.action),
      if e.onLeft == onLeft && ReadsFirst(e.action, q) then 1 else 0)
  {
    var s, p := Here(w, onLeft), There(w, onLeft);
    if e.onLeft == onLeft {
      StepTallies(s, p, e.action, q);
    } else {
      StepGrows(p, e.action);
      PeerKeepsWhole(s, s.calls, p, Step(p, e.action), q);
    }
  }

  lemma {:induction false} RunTallies(w: World, events: seq<Event>, onLeft: bool, q: u32)
    requires Sound(w) && IsRun(w, events)
    ensures Moves(w, After(w, events), onLeft, q, AllAnswered(events, onLeft), FirstReads(events, onLeft, q))
    decreases |events|
  {
    if events != [] {
      var e, t := events[0], Happen(w, events[0]);
      var read := if e.onLeft == onLeft && ReadsFirst(e.action, q) then 1 else 0;
      EventTallies(w, e, onLeft, q);
      HappenSound(w, e);
      RunTallies(t, events[1..], onLeft, q);
      MovesTwice(w, t, After(w, events), onLeft, q, e.onLeft == onLeft ==> Answers(e.action), read,
        AllAnswered(events[1..], onLeft), FirstReads(events[1..], onLeft, q));
    }
  }

  /**
   * In every run a packet is delivered at most as often as receive calls stored all of it, and so at most as often
   * as its first fragment was read; if no ACK write failed, it is delivered twice exactly if two calls stored it.
   */
  lemma DeliveredAsStored(capLeft: Capacity, capRight: Capacity, events: seq<Event>, onLeft: bool, q: u32)
    requires IsRun(DatalinkArq.Start(capLeft, capRight), events)
    ensures var w := After(DatalinkArq.Start(capLeft, capRight), events);
      && Deliveries(w, onLeft, q) <= Whole(w, onLeft, q) <= FirstReads(events, onLeft, q)
      && (AllAnswered(events, onLeft) ==> Deliveries(w, onLeft, q) == Whole(w, onLeft, q))
  {
    RunTallies(DatalinkArq.Start(capLeft, capRight), events, onLeft, q);
    var w := After(DatalinkArq.Start(capLeft, capRight), events);
    WholeStarts(Here(w, onLeft).calls, q, There(w, onLeft));
  }

  // ---- when every packet is delivered at most once -----------------------------------------------

  /** The data frames that sends of this station wrote, retries included. */
  ghost function Written(w: World, events: seq<Event>, onLeft: bool): multiset<Frame>
    requires IsRun(w, events)
    decreases |events|
  {
    if events == [] then multiset{}
    else
      var s := Here(w, onLeft);
      (if events[0].onLeft == onLeft && events[0].action.Write?
        then multiset{Fragment(s.call.q, s.call.data, s.cap, s.call.index)} else multiset{})
      + Written(Happen(w, events[0]), events[1..], onLeft)
  }

  function Handed(a: Action): multiset<Frame> {
    match a
    case Arrive(Some(f), _) => multiset{f}
    case Reply(Some(f)) => multiset{f}
    case _ => multiset{}
  }

  /** The frames the wire handed to this station, each as often as it did. */
  function HandedOver(events: seq<Event>, onLeft: bool): multiset<Frame> {
    if events == [] then multiset{}
    else
      (if events[0].onLeft == onLeft then Handed(events[0].action) else multiset{})
      + HandedOver(events[1..], onLeft)
  }

  /** The wire repeats nothing: each data frame is handed over at most as often as it was written. */
  ghost predicate WireRepeatsNothing(w: World, events: seq<Event>, onLeft: bool)
    requires IsRun(w, events)
  {
    forall f | IsData(f) :: HandedOver(events, onLeft)[f] <= Written(w, events, !onLeft)[f]
  }

  /** No send of this station had to repeat its first fragment. */
  ghost predicate FirstWrittenOnce(w: World, events: seq<Event>, onLeft: bool)
    requires IsRun(w, events)
  {
    forall f | IsData(f) && f.fragmentIndex == 0 :: Written(w, events, onLeft)[f] <= 1
  }

  lemma {:induction false} RunGrows(w: World, events: seq<Event>, onLeft: bool)
    requires IsRun(w, events)
    ensures Grows(Here(w, onLeft), Here(After(w, events), onLeft))
    decreases |events|
  {
    if events != [] {
      if events[0].onLeft == onLeft {
        StepGrows(Here(w, onLeft), events[0].action);
      }
      RunGrows(Happen(w, events[0]), events[1..], onLeft);
      GrowsTwice(Here(w, onLeft), Here(Happen(w, events[0]), onLeft), Here(After(w, events), onLeft));
    }
  }

  lemma GrowsTwice(s: Station, t: Station, u: Station)
    requires Grows(s, t) && Grows(t, u)
    ensures Grows(s, u)
  {
    forall k | 0 <= k < |s.calls|
      ensures s.calls[k] <= u.calls[k]
    {
      assert s.calls[k] <= t.calls[k] <= u.calls[k];
    }
  }

  /** Every first fragment of packet q that was read is the one that the packet has. */
  lemma {:induction false} FirstReadsHanded(w: World, events: seq<Event>, onLeft: bool, q: u32, f: Frame)
    requires Sound(w) && IsRun(w, events)
    requires var p := There(After(w, events), onLeft);
      q in p.packets && IsPacket(p.packets[q]) ==> f == Fragment(q, p.packets[q], p.cap, 0)
    ensures FirstReads(events, onLeft, q) <= HandedOver(events, onLeft)[f]
    decreases |events|
  {
    if events != [] {
      var e := events[0];
      HappenSound(w, e);
      FirstReadsHanded(Happen(w, e), events[1..], onLeft, q, f);
      if e.onLeft == onLeft && ReadsFirst(e.action, q) {
        assert WireOk(e.action.frame.value, There(w, onLeft));
        RunGrows(w, events, !onLeft);
        assert e.action.frame.value == f;
      }
    }
  }

  lemma {:induction false} TimesMember(delivered: seq<(u32, seq<byte>)>, j: nat)
    requires j < |delivered|
    ensures Times(delivered, delivered[j].0) > 0
  {
    if j < |delivered| - 1 {
      TimesMember(delivered[..|delivered| - 1], j);
    }
  }

  lemma {:induction false} TimesTwice(delivered: seq<(u32, seq<byte>)>, i: nat, j: nat)
    requires i < j < |delivered| && delivered[i].0 == delivered[j].0
    ensures Times(delivered, delivered[j].0) >= 2
  {
    if j < |delivered| - 1 {
      TimesTwice(delivered[..|delivered| - 1], i, j);
    } else {
      TimesMember(delivered[..|delivered| - 1], i);
    }
  }

  /**
   * If the wire repeats nothing and no send had to repeat its first fragment, no packet is delivered twice, whatever
   * is lost, delayed or reordered.
   */
  lemma DeliveredOnce(capLeft: Capacity, capRight: Capacity, events: seq<Event>, onLeft: bool, i: nat, j: nat)
    requires IsRun(DatalinkArq.Start(capLeft, capRight), events)
    requires WireRepeatsNothing(DatalinkArq.Start(capLeft, capRight), events, onLeft)
    requires FirstWrittenOnce(DatalinkArq.Start(capLeft, capRight), events, !onLeft)
    requires i < j < |Here(After(DatalinkArq.Start(capLeft, capRight), events), onLeft).delivered|
    ensures var delivered := Here(After(DatalinkArq.Start(capLeft, capRight), events), onLeft).delivered;
      delivered[i].0 != delivered[j].0
  {
    var w := After(DatalinkArq.Start(capLeft, capRight), events);
    var delivered, p := Here(w, onLeft).delivered, There(w, onLeft);
    var q := delivered[j].0;
    RunSound(DatalinkArq.Start(capLeft, capRight), events);
    assert Faithful(delivered[j], p.packets);
    var f := Fragment(q, p.packets[q], p.cap, 0);
    DeliveredAsStored(capLeft, capRight, events, onLeft, q);
    FirstReadsHanded(DatalinkArq.Start(capLeft, capRight), events, onLeft, q, f);
    assert HandedOver(events, onLeft)[f] <= Written(DatalinkArq.Start(capLeft, capRight), events, !onLeft)[f] <= 1;
    if delivered[i].0 == q {
      TimesTwice(delivered, i, j);
    }
  }

  // ---- neither condition is enough -----------------------------------------------------------------

  ghost function Writes(s: Station, a: Action): multiset<Frame>
    requires Enabled(s, a)
  {
    if a.Write? then multiset{Fragment(s.call.q, s.call.data, s.cap, s.call.index)} else multiset{}
  }

  lemma {:induction false} HandedMore(events: seq<Event>, e: Event, onLeft: bool)
    ensures HandedOver(events + [e], onLeft)
      == HandedOver(events, onLeft) + if e.onLeft == onLeft then Handed(e.action) else multiset{}
  {
    if events == [] {
      assert [] + [e] == [e] && [e][1..] == [];
    } else {
      assert (events + [e])[1..] == events[1..] + [e] && (events + [e])[0] == events[0];
      HandedMore(events[1..], e, onLeft);
    }
  }

  lemma {:induction false} WrittenMore(w: World, events: seq<Event>, e: Event, onLeft: bool)
    requires IsRun(w, events) && Possible(After(w, events), e) && IsRun(w, events + [e])
    ensures Written(w, events + [e], onLeft) == Written(w, events, onLeft)
      + if e.onLeft == onLeft then Writes(Here(After(w, events), onLeft), e.action) else multiset{}
    decreases |events|
  {
    if events == [] {
      assert [] + [e] == [e] && [e][1..] == [];
    } else {
      assert (events + [e])[1..] == events[1..] + [e] && (events + [e])[0] == events[0];
      WrittenMore(Happen(w, events[0]), events[1..], e, onLeft);
    }
  }

  /** Two stations with the smallest capacity; the left one sends the empty packet, whose only fragment is this. */
  function EmptyFragment(): Frame { Fragment(1, [], 1, 0) }

  /** What the left station wrote and the right one was handed in a run so far. */
  ghost predicate Progress(events: seq<Event>, written: multiset<Frame>, handed: multiset<Frame>, w: World) {
    && IsRun(DatalinkArq.Start(1, 1), events) && After(DatalinkArq.Start(1, 1), events) == w
    && Written(DatalinkArq.Start(1, 1), events, true) == written && HandedOver(events, false) == handed
  }

  lemma Continue(events: seq<Event>, written: multiset<Frame>, handed: multiset<Frame>, w: World, e: Event)
    returns (more: seq<Event>)
    requires Progress(events, written, handed, w) && Possible(w, e)
    ensures Progress(more,
      written + (if e.onLeft then Writes(w.left, e.action) else multiset{}),
      handed + (if !e.onLeft then Handed(e.action) else multiset{}), Happen(w, e))
  {
    more := events + [e];
    RunsJoin(DatalinkArq.Start(1, 1), events, e);
    HandedMore(events, e, false);
    WrittenMore(DatalinkArq.Start(1, 1), events, e, true);
  }

  /** The left station waits for the acknowledgement of the empty packet, after so many attempts. */
  predicate Waiting(w: World, attempt: nat) {
    w.left.cap == 1 && w.left.call == Sending(1, [], 0, attempt, true) && EmptyFragment() in w.left.wire
    && w.left.packets == map[1 := []]
    && w.right.cap == 1 && w.right.call.Idle?
  }

  lemma NothingRepeated(events: seq<Event>, written: multiset<Frame>, handed: multiset<Frame>, w: World)
    requires Progress(events, written, handed, w) && handed <= written
    ensures WireRepeatsNothing(DatalinkArq.Start(1, 1), events, false)
  {}

  lemma EmptySent() returns (events: seq<Event>, w: World)
    ensures Progress(events, multiset{EmptyFragment()}, multiset{}, w) && Waiting(w, 0) && w.right.delivered == []
  {
    w := DatalinkArq.Start(1, 1);
    events := [];
    events := Continue(events, multiset{}, multiset{}, w, Event(true, Submit([])));
    w := Happen(w, Event(true, Submit([])));
    events := Continue(events, multiset{}, multiset{}, w, Event(true, Write(true)));
    w := Happen(w, Event(true, Write(true)));
  }

  lemma EmptyReceived(events: seq<Event>, written: multiset<Frame>, handed: multiset<Frame>, w: World, attempt: nat)
    returns (more: seq<Event>, t: World)
    requires Progress(events, written, handed, w) && Waiting(w, attempt)
    ensures Progress(more, written, handed + multiset{EmptyFragment()}, t) && Waiting(t, attempt)
    ensures t.right.delivered == w.right.delivered + [(1, [])]
  {
    more := Continue(events, written, handed, w, Event(false, Listen([])));
    t := Happen(w, Event(false, Listen([])));
    var arrive := Event(false, Arrive(Some(EmptyFragment()), true));
    more := Continue(more, written, handed, t, arrive);
    t := Happen(t, arrive);
  }

  /** The acknowledgement is lost and the send repeats its fragment. */
  lemma EmptyRetried(events: seq<Event>, written: multiset<Frame>, handed: multiset<Frame>, w: World)
    returns (more: seq<Event>, t: World)
    requires Progress(events, written, handed, w) && Waiting(w, 0)
    ensures Progress(more, written + multiset{EmptyFragment()}, handed, t) && Waiting(t, 1)
    ensures t.right.delivered == w.right.delivered
  {
    more := Continue(events, written, handed, w, Event(true, Reply(None)));
    t := Happen(w, Event(true, Reply(None)));
    more := Continue(more, written, handed, t, Event(true, Write(true)));
    t := Happen(t, Event(true, Write(true)));
  }

  /** A packet sent once is delivered twice if the wire repeats its fragment, */
  lemma RepeatingWireDeliversTwice() returns (events: seq<Event>, w: World)
    ensures IsRun(DatalinkArq.Start(1, 1), events) && w == After(DatalinkArq.Start(1, 1), events)
    ensures w.left.packets == map[1 := []] && w.right.delivered == [(1, []), (1, [])]
    ensures FirstWrittenOnce(DatalinkArq.Start(1, 1), events, true)
  {
    events, w := EmptySent();
    var f := EmptyFragment();
    events, w := EmptyReceived(events, multiset{f}, multiset{}, w, 0);
    events, w := EmptyReceived(events, multiset{f}, multiset{f}, w, 0);
  }

  /** and also if the wire repeats nothing but loses the acknowledgement, so that the send repeats it. */
  lemma RetryDeliversTwice() returns (events: seq<Event>, w: World)
    ensures IsRun(DatalinkArq.Start(1, 1), events) && w == After(DatalinkArq.Start(1, 1), events)
    ensures w.left.packets == map[1 := []] && w.right.delivered == [(1, []), (1, [])]
    ensures WireRepeatsNothing(DatalinkArq.Start(1, 1), events, false)
  {
    events, w := EmptySent();
    var one := multiset{EmptyFragment()};
    var none: multiset<Frame> := multiset{};
    events, w := EmptyReceived(events, one, none, w, 0);
    assert w.right.delivered == [(1, [])];
    events, w := EmptyRetried(events, one, none + one, w);
    events, w := EmptyReceived(events, one + one, none + one, w, 1);
    NothingRepeated(events, one + one, none + one + one, w);
  }
}
