/** What the four attempts of a send buy, and what a lost acknowledgement costs. */
module DatalinkLossy {
  import opened Wrappers
  import opened Bytes
  import opened DatalinkFrame
  import opened DatalinkPacket
  import opened DatalinkArq
  import opened DatalinkLink

  // ---- when a send succeeds ----------------------------------------------------------------------

  /** The j-th write from now on goes out, and the j-th read from now on finds this. */
  predicate GoesOut(verdicts: seq<bool>, j: nat) { j < |verdicts| ==> verdicts[j] }

  predicate Answers(inbox: seq<Option<Frame>>, j: nat, q: u32, index: nat) {
    j < |inbox| && inbox[j].Some? && Acknowledges(inbox[j].value, q, index)
  }

  /** A fragment takes t attempts: all of its writes go out, and of the reads behind them the last, and only the last,
      finds its acknowledgement. */
  predicate Takes(inbox: seq<Option<Frame>>, verdicts: seq<bool>, q: u32, index: nat, t: nat) {
    t > 0 && forall j | 0 <= j < t :: GoesOut(verdicts, j) && (Answers(inbox, j, q, index) <==> j == t - 1)
  }

  function Drop<T>(s: seq<T>, t: nat): seq<T> {
    if t <= |s| then s[t..] else []
  }

  /** The fragments from index on take these numbers of attempts, none more than four. */
  predicate Succeeds(inbox: seq<Option<Frame>>, verdicts: seq<bool>, q: u32, index: nat, tries: seq<nat>)
    decreases |tries|
  {
    tries == []
    || (tries[0] <= MAX_RETRIES + 1 && Takes(inbox, verdicts, q, index, tries[0])
      && Succeeds(Drop(inbox, tries[0]), Drop(verdicts, tries[0]), q, index + 1, tries[1..]))
  }

  /** The same, one attempt at a time. */
  predicate Wins(inbox: seq<Option<Frame>>, verdicts: seq<bool>, q: u32, index: nat, left: nat, attempt: nat)
    decreases left, MAX_RETRIES + 1 - attempt
  {
    left == 0
    || (attempt <= MAX_RETRIES && GoesOut(verdicts, 0)
      && if Answers(inbox, 0, q, index) then Wins(Rest(inbox), Rest(verdicts), q, index + 1, left - 1, 0)
        else Wins(Rest(inbox), Rest(verdicts), q, index, left, attempt + 1))
  }

  lemma DropRest<T>(s: seq<T>, t: nat)
    ensures Drop(Rest(s), t) == Drop(s, t + 1) && Drop(s, 0) == s && Drop(s, 1) == Rest(s)
  {
    if t + 1 <= |s| {
      assert s[1..][t..] == s[t + 1..];
    }
  }

  /** One more attempt in front of those that a fragment takes. */
  lemma TakesOneMore(inbox: seq<Option<Frame>>, verdicts: seq<bool>, q: u32, index: nat, t: nat)
    requires t > 0
    ensures Takes(inbox, verdicts, q, index, t + 1)
      <==> GoesOut(verdicts, 0) && !Answers(inbox, 0, q, index) && Takes(Rest(inbox), Rest(verdicts), q, index, t)
  {
    forall j: nat
      ensures GoesOut(Rest(verdicts), j) == GoesOut(verdicts, j + 1)
      ensures Answers(Rest(inbox), j, q, index) == Answers(inbox, j + 1, q, index)
    {}
    if Takes(inbox, verdicts, q, index, t + 1) {
      forall j | 0 <= j < t
        ensures GoesOut(Rest(verdicts), j) && (Answers(Rest(inbox), j, q, index) <==> j == t - 1)
      {
        assert GoesOut(verdicts, j + 1);
      }
    }
    if GoesOut(verdicts, 0) && !Answers(inbox, 0, q, index) && Takes(Rest(inbox), Rest(verdicts), q, index, t) {
      forall j | 0 <= j < t + 1
        ensures GoesOut(verdicts, j) && (Answers(inbox, j, q, index) <==> j == t)
      {
        assert j > 0 ==> GoesOut(Rest(verdicts), j - 1);
      }
    }
  }

  lemma TakesOne(inbox: seq<Option<Frame>>, verdicts: seq<bool>, q: u32, index: nat)
    ensures Takes(inbox, verdicts, q, index, 1) <==> GoesOut(verdicts, 0) && Answers(inbox, 0, q, index)
  {
    assert Takes(inbox, verdicts, q, index, 1) ==> GoesOut(verdicts, 0);
  }

  /** From a fragment of which some attempts were made, the first number of attempts counts what is left of them. */
  lemma {:induction false} WinningTries(inbox: seq<Option<Frame>>, verdicts: seq<bool>, q: u32, index: nat,
    left: nat, attempt: nat) returns (tries: seq<nat>)
    requires Wins(inbox, verdicts, q, index, left, attempt) && attempt <= MAX_RETRIES
    ensures |tries| == left && Succeeds(inbox, verdicts, q, index, tries)
    ensures left > 0 ==> tries[0] <= MAX_RETRIES + 1 - attempt
    decreases left, MAX_RETRIES + 1 - attempt
  {
    tries := [];
    if left > 0 {
      if Answers(inbox, 0, q, index) {
        var more := WinningTries(Rest(inbox), Rest(verdicts), q, index + 1, left - 1, 0);
        tries := [1] + more;
        TakesOne(inbox, verdicts, q, index);
        DropRest(inbox, 0);
        DropRest(verdicts, 0);
        assert tries[1..] == more;
      } else {
        assert attempt < MAX_RETRIES;
        var more := WinningTries(Rest(inbox), Rest(verdicts), q, index, left, attempt + 1);
        tries := [more[0] + 1] + more[1..];
        TakesOneMore(inbox, verdicts, q, index, more[0]);
        DropRest(inbox, more[0]);
        DropRest(verdicts, more[0]);
        assert tries[1..] == more[1..];
      }
    }
  }

  lemma {:induction false} TriesWin(inbox: seq<Option<Frame>>, verdicts: seq<bool>, q: u32, index: nat,
    tries: seq<nat>, attempt: nat)
    requires Succeeds(inbox, verdicts, q, index, tries) && attempt <= MAX_RETRIES
    requires tries != [] ==> tries[0] <= MAX_RETRIES + 1 - attempt
    ensures Wins(inbox, verdicts, q, index, |tries|, attempt)
    decreases |tries|, MAX_RETRIES + 1 - attempt
  {
    if tries != [] {
      var t := tries[0];
      if t == 1 {
        TakesOne(inbox, verdicts, q, index);
        DropRest(inbox, 0);
        DropRest(verdicts, 0);
        if |tries| > 1 {
          assert tries[1..][0] <= MAX_RETRIES + 1;
        }
        TriesWin(Rest(inbox), Rest(verdicts), q, index + 1, tries[1..], 0);
      } else {
        TakesOneMore(inbox, verdicts, q, index, t - 1);
        DropRest(inbox, t - 1);
        DropRest(verdicts, t - 1);
        var fewer := [t - 1] + tries[1..];
        assert fewer[1..] == tries[1..];
        TriesWin(Rest(inbox), Rest(verdicts), q, index, fewer, attempt + 1);
      }
    }
  }

  /** One attempt, whatever is written and read. */
  lemma AttemptIs(m: Machine)
    requires Working(m) && m.station.call.Sending? && !m.station.call.waiting
    ensures var c, r := m.station.call, Attempt(m);
      && r.station.cap == m.station.cap
      && if !GoesOut(m.verdicts, 0) then r.station.call.Idle? && r.station.sent == m.station.sent
        else
          r.inbox == Rest(m.inbox) && r.verdicts == Rest(m.verdicts)
          && if !Answers(m.inbox, 0, c.q, c.index) then
              r.station.sent == m.station.sent
              && r.station.call == if c.attempt >= MAX_RETRIES then Idle else c.(attempt := c.attempt + 1)
            else if c.index + 1 < FragmentCount(|c.data|, m.station.cap) then
              r.station.sent == m.station.sent && r.station.call == c.(index := c.index + 1, attempt := 0)
            else r.station.sent == m.station.sent + [c.q] && r.station.call.Idle?
  {}

  /** How many fragments are not acknowledged yet. */
  function ToGo(s: Station): nat
    requires HasFragment(s)
  {
    FragmentCount(|s.call.data|, s.cap) - s.call.index
  }

  lemma {:induction false} DriveWins(m: Machine)
    requires Working(m) && HasFragment(m.station) && !m.station.call.waiting
    ensures var c := m.station.call;
      Drive(m).station.sent == m.station.sent
        + if Wins(m.inbox, m.verdicts, c.q, c.index, ToGo(m.station), c.attempt) then [c.q] else []
    decreases ToGo(m.station), MAX_RETRIES + 1 - m.station.call.attempt
  {
    AttemptIs(m);
    AttemptDrives(m);
    if !Attempt(m).station.call.Idle? {
      DriveWins(Attempt(m));
    }
  }

  /** A send returns 0 exactly if each fragment in turn is acknowledged by one of at most four reads, and every write up
      to that one goes out. */
  lemma SendSucceedsExactly(m: Machine, data: seq<byte>)
    requires m.station.call.Idle? && InboxBounded(m.inbox) && IsPacket(data)
    requires m.station.nextSequence !in m.station.packets
    ensures var q, sent := m.station.nextSequence, Drive(Submitted(m, data)).station.sent;
      && (sent == m.station.sent + [q] || sent == m.station.sent)
      && (sent == m.station.sent + [q] <==> exists tries: seq<nat> ::
        |tries| == FragmentCount(|data|, m.station.cap) && Succeeds(m.inbox, m.verdicts, q, 0, tries))
  {
    var s, q, count := Submitted(m, data), m.station.nextSequence, FragmentCount(|data|, m.station.cap);
    DriveWins(s);
    if Wins(m.inbox, m.verdicts, q, 0, count, 0) {
      var tries := WinningTries(m.inbox, m.verdicts, q, 0, count, 0);
    }
    forall tries: seq<nat> | |tries| == count && Succeeds(m.inbox, m.verdicts, q, 0, tries)
      ensures Wins(m.inbox, m.verdicts, q, 0, count, 0)
    {
      TriesWin(m.inbox, m.verdicts, q, 0, tries, 0);
    }
    assert m.station.sent + [q] != m.station.sent;
  }

  // ---- what a lost acknowledgement does to the receiver ------------------------------------------------

  /** The sender repeats a fragment whose acknowledgement was lost. If it was not the last one, the receive call that
      stored it ends without a packet. */
  lemma LostAckEndsCall(m: Machine, q: u32, data: seq<byte>, cap: Capacity, n: nat)
    requires IsPacket(data) && n + 1 < FragmentCount(|data|, cap) && Working(m) && Listening(m.station)
    requires m.station.call == Next(Fragment(q, data, cap, 0), n + 1, m.station.call.buffer)
    requires m.inbox != [] && m.inbox[0] == Some(Fragment(q, data, cap, n))
    ensures Drive(m) == Pulse(m) && Drive(m).station.delivered == m.station.delivered
    ensures Drive(m).inbox == m.inbox[1..] && Drive(m).outbox == m.outbox + [Answer(Fragment(q, data, cap, n), false)]
  {
    DriveUnfolds(m);
    assert OnNext(m.station.call.first, n + 1, m.station.call.buffer, Fragment(q, data, cap, n)).Reject?;
  }

  /** Nor does another receive call begin with it, unless it is the first one. */
  lemma RepeatOpensNothing(m: Machine, q: u32, data: seq<byte>, cap: Capacity, n: nat, buffer: seq<byte>)
    requires IsPacket(data) && 0 < n < FragmentCount(|data|, cap)
    requires m.station.call.Idle? && InboxBounded(m.inbox)
    requires m.inbox != [] && m.inbox[0] == Some(Fragment(q, data, cap, n))
    ensures var r := Drive(Listened(m, buffer));
      r.station.delivered == m.station.delivered && r.inbox == m.inbox[1..] && r.outbox == m.outbox
  {
    var l := Listened(m, buffer);
    FragmentPlace(data, cap, n);
    DriveUnfolds(l);
    assert OnFirst(buffer, Fragment(q, data, cap, n)).Refuse?;
  }
}
