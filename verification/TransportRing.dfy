/** The queue of a channel: a ring of four requests, as a value and in place. */
module TransportRing {
  import opened Wrappers
  import opened Bytes
  import opened Transport

  const QUEUE_DEPTH := 4

  // ---- the ring --------------------------------------------------------------------------------

  datatype Ring = Ring(slots: seq<Message>, head: nat, tail: nat, count: nat)

  predicate RingOk(r: Ring) {
    |r.slots| == QUEUE_DEPTH && r.head < QUEUE_DEPTH && r.count <= QUEUE_DEPTH
    && r.tail == (r.head + r.count) % QUEUE_DEPTH
  }

  /** n requests from a slot on, around the ring. */
  function From(slots: seq<Message>, head: nat, n: nat): (s: seq<Message>)
    requires |slots| == QUEUE_DEPTH && head < QUEUE_DEPTH
    ensures |s| == n
    decreases n, 1
  {
    if n == 0 then [] else FirstFrom(slots, head, n)
  }

  /** The first of them, and the others behind it. */
  function FirstFrom(slots: seq<Message>, head: nat, n: nat): (s: seq<Message>)
    requires |slots| == QUEUE_DEPTH && head < QUEUE_DEPTH && n > 0
    ensures |s| == n
    decreases n, 0
  {
    [slots[head]] + From(slots, (head + 1) % QUEUE_DEPTH, n - 1)
  }

  lemma FromFirst(slots: seq<Message>, head: nat, n: nat)
    requires |slots| == QUEUE_DEPTH && head < QUEUE_DEPTH && n > 0
    ensures From(slots, head, n) == [slots[head]] + From(slots, (head + 1) % QUEUE_DEPTH, n - 1)
  {
    assert From(slots, head, n) == FirstFrom(slots, head, n);
  }

  /** The requests queued, oldest first. */
  function Queued(r: Ring): (s: seq<Message>)
    requires RingOk(r)
    ensures |s| == r.count
  {
    From(r.slots, r.head, r.count)
  }

  function Push(r: Ring, m: Message): Ring
    requires RingOk(r)
  {
    Ring(r.slots[r.tail := m], r.head, (r.tail + 1) % QUEUE_DEPTH, r.count + 1)
  }

  function Pop(r: Ring): Ring
    requires RingOk(r) && r.count > 0
  {
    r.(head := (r.head + 1) % QUEUE_DEPTH, count := r.count - 1)
  }

  /** A request written behind the n queued ones is queued after them, as long as it does not meet them. */
  lemma {:induction false} FromSnoc(slots: seq<Message>, head: nat, n: nat, tail: nat, m: Message)
    requires |slots| == QUEUE_DEPTH && head < QUEUE_DEPTH && n < QUEUE_DEPTH && tail == (head + n) % QUEUE_DEPTH
    ensures From(slots[tail := m], head, n + 1) == From(slots, head, n) + [m]
    decreases n
  {
    FromFirst(slots[tail := m], head, n + 1);
    if n > 0 {
      var next := (head + 1) % QUEUE_DEPTH;
      FromFirst(slots, head, n);
      NextTail(head, 1, n - 1);
      FromSnoc(slots, next, n - 1, tail, m);
      NotMet(head, n);
      assert slots[tail := m][head] == slots[head];
      Regroup([slots[head]], From(slots, next, n - 1), [m]);
    }
  }

  lemma NotMet(head: nat, n: nat)
    requires head < QUEUE_DEPTH && 0 < n < QUEUE_DEPTH
    ensures (head + n) % QUEUE_DEPTH != head
  {}

  lemma NextTail(head: nat, i: nat, j: nat)
    ensures ((head + i) % QUEUE_DEPTH + j) % QUEUE_DEPTH == (head + (i + j)) % QUEUE_DEPTH
  {}

  lemma PushOk(r: Ring, m: Message)
    requires RingOk(r) && r.count < QUEUE_DEPTH
    ensures RingOk(Push(r, m))
  {
    NextTail(r.head, r.count, 1);
  }

  lemma PushQueues(r: Ring, m: Message)
    requires RingOk(r) && r.count < QUEUE_DEPTH
    ensures RingOk(Push(r, m)) && Queued(Push(r, m)) == Queued(r) + [m]
  {
    PushOk(r, m);
    FromSnoc(r.slots, r.head, r.count, r.tail, m);
  }

  lemma PopTakesOldest(r: Ring)
    requires RingOk(r) && r.count > 0
    ensures RingOk(Pop(r)) && Queued(r) == [r.slots[r.head]] + Queued(Pop(r))
  {
    FromFirst(r.slots, r.head, r.count);
  }

  const NO_MESSAGE := Message(0, 0, 0, 0, 0, 0, [])
  const NEW_RING := Ring([NO_MESSAGE, NO_MESSAGE, NO_MESSAGE, NO_MESSAGE], 0, 0, 0)

  // ---- the queue in place ----------------------------------------------------------------------

  class ChannelRuntime {
    const queue: array<Message>
    var head: nat
    var tail: nat
    var count: nat
    var stopRequested: bool
    var handled: seq<Message>

    ghost function View(): Ring
      reads this, queue
    {
      Ring(queue[..], head, tail, count)
    }

    ghost predicate Valid()
      reads this, queue
    {
      RingOk(View())
    }

    constructor ()
      ensures Valid() && View() == NEW_RING && !stopRequested && handled == [] && fresh(queue)
    {
      queue := new Message[QUEUE_DEPTH](_ => NO_MESSAGE);
      head, tail, count, stopRequested, handled := 0, 0, 0, false, [];
    }

    /** ac_transport_queue_request: refuses when the ring is full or the payload too large. */
    method QueueRequest(frame: Message) returns (ok: bool)
      requires Valid()
      modifies this`tail, this`count, queue
      ensures Valid() && ok == (|frame.payload| <= MAX_PAYLOAD && old(count) < QUEUE_DEPTH)
      ensures View() == if ok then Push(old(View()), frame) else old(View())
      ensures Queued(View()) == old(Queued(View())) + if ok then [frame] else []
    {
      if |frame.payload| > MAX_PAYLOAD || count >= QUEUE_DEPTH {
        return false;
      }
      PushQueues(View(), frame);
      queue[tail] := frame;
      tail := (tail + 1) % QUEUE_DEPTH;
      count := count + 1;
      ok := true;
    }

    /** ac_transport_pop_request: the oldest request, if there is one. */
    method PopRequest() returns (request: Option<Message>)
      requires Valid()
      modifies this`head, this`count
      ensures Valid() && request.None? == (old(count) == 0)
      ensures View() == if request.Some? then Pop(old(View())) else old(View())
      ensures old(Queued(View())) == (if request.Some? then [request.value] else []) + Queued(View())
      ensures |Queued(View())| == |old(Queued(View()))| - if request.Some? then 1 else 0
    {
      if count == 0 {
        return None;
      }
      PopTakesOldest(View());
      request := Some(queue[head]);
      head := (head + 1) % QUEUE_DEPTH;
      count := count - 1;
    }

    /** Other threads: requests are queued, or refused, and a stop may be requested. */
    method Others(turn: Interval) returns (accepted: seq<Message>)
      requires Valid()
      modifies this`tail, this`count, this`stopRequested, queue
      ensures Valid() && Queued(View()) == old(Queued(View())) + accepted
      ensures multiset(accepted) <= multiset(turn.arrivals) && stopRequested == (old(stopRequested) || turn.stop)
    {
      accepted := [];
      for i := 0 to |turn.arrivals|
        invariant Valid() && Queued(View()) == old(Queued(View())) + accepted
        invariant multiset(accepted) <= multiset(turn.arrivals[..i]) && stopRequested == old(stopRequested)
      {
        var ok := QueueRequest(turn.arrivals[i]);
        OneMoreArrival(turn.arrivals, i, old(Queued(View())), accepted);
        if ok {
          accepted := accepted + [turn.arrivals[i]];
        }
      }
      assert turn.arrivals[..|turn.arrivals|] == turn.arrivals;
      stopRequested := stopRequested || turn.stop;
    }

    lemma OneMoreArrival(arrivals: seq<Message>, i: nat, queued: seq<Message>, accepted: seq<Message>)
      requires i < |arrivals| && multiset(accepted) <= multiset(arrivals[..i])
      ensures multiset(accepted) <= multiset(arrivals[..i + 1])
      ensures multiset(accepted + [arrivals[i]]) <= multiset(arrivals[..i + 1])
      ensures queued + accepted + [arrivals[i]] == queued + (accepted + [arrivals[i]])
    {
      assert arrivals[..i + 1] == arrivals[..i] + [arrivals[i]];
    }

    /** What was handled and what is queued, in order. */
    ghost function Line(): seq<Message>
      requires Valid()
      reads this, queue
    {
      handled + Queued(View())
    }

    /** One turn of the worker's loop: the oldest request, if there is one, is handled. */
    method HandleOne() returns (some: bool)
      requires Valid()
      modifies this`head, this`count, this`handled
      ensures Valid() && Line() == old(Line()) && some == (old(count) > 0)
      ensures count == old(count) - if some then 1 else 0
    {
      var request := PopRequest();
      some := request.Some?;
      if some {
        Regroup(handled, [request.value], Queued(View()));
        handled := handled + [request.value];
      }
    }

    /** The worker's loop, with what other threads do before each of its turns: it leaves only after a stop was
        requested, and then everything queued before or during the loop was handled, once and in order. */
    method Work(script: seq<Interval>) returns (accepted: seq<Message>)
      requires Valid() && (stopRequested || (script != [] && script[|script| - 1].stop))
      modifies this, queue
      ensures Valid() && count == 0 && stopRequested && handled == old(Line()) + accepted
    {
      var i := 0;
      accepted := [];
      assert Line() + [] == Line();
      while !stopRequested || count > 0
        invariant Valid() && i <= |script| && Line() == old(Line()) + accepted
        invariant stopRequested || (i < |script| && script[|script| - 1].stop)
        decreases |script| - i, count
      {
        if i < |script| {
          ghost var queued := Queued(View());
          var more := Others(script[i]);
          Regroup(handled, queued, more);
          Regroup(old(Line()), accepted, more);
          accepted := accepted + more;
          i := i + 1;
        }
        var some := HandleOne();
      }
      assert Queued(View()) == [] && handled + [] == handled;
    }
  }

  /** What other threads do between two turns of a worker. */
  datatype Interval = Interval(arrivals: seq<Message>, stop: bool)
}
