/** When a receive call delivers a packet, and which: exactly, for any frames read from any sender. */
module DatalinkReceive {
  import opened Wrappers
  import opened Bytes
  import opened DatalinkFrame
  import opened DatalinkPacket
  import opened DatalinkArq
  import opened DatalinkLink
  import opened DatalinkLossy

  /** A frame without data, in front of the packet. */
  predicate Stray(r: Option<Frame>) {
    r.Some? && !IsData(r.value)
  }

  function Strays(got: seq<Option<Frame>>): (n: nat)
    ensures n <= |got| && (forall i | 0 <= i < n :: Stray(got[i])) && (n < |got| ==> !Stray(got[n]))
  {
    if got == [] || !Stray(got[0]) then 0 else 1 + Strays(got[1..])
  }

  /** This frame may open a packet in a buffer of this size. */
  predicate Opens(f: Frame, size: nat) {
    IsData(f) && f.fragmentOffset == 0 && f.fragmentCount > 0 && |f.payload| <= f.transportSize
    && f.transportSize <= size && f.transportSize <= MAX_PACKET_SIZE
  }

  /** This frame is the fragment with the given index of the packet opened by first. */
  predicate Continues(first: Frame, index: nat, size: nat, f: Frame) {
    IsData(f) && f.linkSequence == first.linkSequence && f.transportSize == first.transportSize
    && f.fragmentIndex == index && f.fragmentOffset + |f.payload| <= size
  }

  /** The next n reads are the fragments from this index on, and their acknowledgements go out. */
  predicate Follows(got: seq<Option<Frame>>, verdicts: seq<bool>, first: Frame, index: nat, size: nat, n: nat) {
    n <= |got|
    && forall i | 0 <= i < n ::
      got[i].Some? && Continues(first, index + i, size, got[i].value) && GoesOut(verdicts, i)
  }

  /** The reads begin with a whole packet. */
  predicate BeginsPacket(got: seq<Option<Frame>>, verdicts: seq<bool>, size: nat) {
    got != [] && got[0].Some? && Opens(got[0].value, size) && GoesOut(verdicts, 0)
    && Follows(got[1..], Rest(verdicts), got[0].value, 1, size, got[0].value.fragmentCount - 1)
  }

  // ---- what stands in the buffer -----------------------------------------------------------------

  predicate Within(got: seq<Option<Frame>>, size: nat) {
    forall i | 0 <= i < |got| :: got[i].Some? && got[i].value.fragmentOffset + |got[i].value.payload| <= size
  }

  /** The payloads laid into the buffer one after the other. */
  function Laid(buffer: seq<byte>, got: seq<Option<Frame>>): (r: seq<byte>)
    requires Within(got, |buffer|)
    ensures |r| == |buffer|
    decreases |got|
  {
    if got == [] then buffer else Laid(Store(buffer, got[0].value), got[1..])
  }

  predicate Covers(f: Frame, p: nat) {
    f.fragmentOffset <= p < f.fragmentOffset + |f.payload|
  }

  /** Every byte is that of the last payload laid over it; the others keep what they were. */
  lemma {:induction false} LaidAt(buffer: seq<byte>, got: seq<Option<Frame>>, p: nat)
    requires Within(got, |buffer|) && p < |buffer|
    ensures (forall i | 0 <= i < |got| :: !Covers(got[i].value, p)) ==> Laid(buffer, got)[p] == buffer[p]
    ensures forall i | 0 <= i < |got| && Covers(got[i].value, p)
      && (forall j | i < j < |got| :: !Covers(got[j].value, p)) ::
        Laid(buffer, got)[p] == got[i].value.payload[p - got[i].value.fragmentOffset]
    decreases |got|
  {
    if got != [] {
      LaidAt(Store(buffer, got[0].value), got[1..], p);
      forall i | 0 <= i < |got| && Covers(got[i].value, p)
          && (forall j | i < j < |got| :: !Covers(got[j].value, p))
        ensures Laid(buffer, got)[p] == got[i].value.payload[p - got[i].value.fragmentOffset]
      {
        if i > 0 {
          assert got[1..][i - 1] == got[i];
        }
      }
    }
  }

  /** The acknowledgements of frames read. */
  function Acknowledged(got: seq<Option<Frame>>): seq<Frame>
    requires forall i | 0 <= i < |got| :: got[i].Some?
  {
    if got == [] then [] else [Answer(got[0].value, true)] + Acknowledged(got[1..])
  }

  // ---- receive calls -----------------------------------------------------------------------------

  /** What a receive call does if it delivers: n reads are laid into the buffer and acknowledged. */
  ghost predicate Delivered(m: Machine, r: Machine, first: Frame, buffer: seq<byte>, n: nat)
    requires n <= |m.inbox| && Within(m.inbox[..n], |buffer|) && first.transportSize <= |buffer|
  {
    && r.inbox == m.inbox[n..] && r.outbox == m.outbox + Acknowledged(m.inbox[..n])
    && r.station.delivered == m.station.delivered
      + [(first.linkSequence, Laid(buffer, m.inbox[..n])[..first.transportSize])]
  }

  lemma FollowsWithin(got: seq<Option<Frame>>, verdicts: seq<bool>, first: Frame, index: nat, size: nat, n: nat)
    requires Follows(got, verdicts, first, index, size, n)
    ensures Within(got[..n], size)
  {}

  lemma FollowsNext(got: seq<Option<Frame>>, verdicts: seq<bool>, first: Frame, index: nat, size: nat, n: nat)
    requires n > 0
    ensures Follows(got, verdicts, first, index, size, n) <==>
      (got != [] && got[0].Some? && Continues(first, index, size, got[0].value) && GoesOut(verdicts, 0)
        && Follows(got[1..], Rest(verdicts), first, index + 1, size, n - 1))
  {
    if got != [] && got[0].Some? && Continues(first, index, size, got[0].value) && GoesOut(verdicts, 0)
      && Follows(got[1..], Rest(verdicts), first, index + 1, size, n - 1)
    {
      forall i | 0 <= i < n
        ensures got[i].Some? && Continues(first, index + i, size, got[i].value) && GoesOut(verdicts, i)
      {
        if i > 0 {
          assert got[1..][i - 1] == got[i] && GoesOut(Rest(verdicts), i - 1);
        }
      }
    }
    if Follows(got, verdicts, first, index, size, n) {
      forall i | 0 <= i < n - 1
        ensures got[1..][i].Some? && Continues(first, index + 1 + i, size, got[1..][i].value)
        ensures GoesOut(Rest(verdicts), i)
      {
        assert got[1..][i] == got[i + 1] && GoesOut(verdicts, i + 1);
      }
    }
  }

  /** One more read is laid into the buffer in front of those that follow. */
  lemma DeliveredNext(m: Machine, p: Machine, r: Machine, first: Frame, buffer: seq<byte>, f: Frame, n: nat)
    requires m.inbox != [] && m.inbox[0] == Some(f) && f.fragmentOffset + |f.payload| <= |buffer|
    requires first.transportSize <= |buffer|
    requires p.inbox == m.inbox[1..] && p.outbox == m.outbox + [Answer(f, true)]
    requires p.station.delivered == m.station.delivered
    requires n <= |p.inbox| && Within(p.inbox[..n], |buffer|) && Delivered(p, r, first, Store(buffer, f), n)
    ensures Within(m.inbox[..n + 1], |buffer|) && Delivered(m, r, first, buffer, n + 1)
  {
    var got := m.inbox[..n + 1];
    assert got[1..] == p.inbox[..n];
    forall i | 0 <= i < |got|
      ensures got[i].Some? && got[i].value.fragmentOffset + |got[i].value.payload| <= |buffer|
    {
      assert i > 0 ==> got[i] == p.inbox[..n][i - 1];
    }
    Regroup(m.outbox, [Answer(f, true)], Acknowledged(p.inbox[..n]));
  }

  lemma OnlyOne(m: Machine, p: Machine, first: Frame, buffer: seq<byte>, f: Frame)
    requires m.inbox != [] && m.inbox[0] == Some(f) && f.fragmentOffset + |f.payload| <= |buffer|
    requires first.transportSize <= |buffer| && p.inbox == m.inbox[1..] && p.outbox == m.outbox + [Answer(f, true)]
    requires p.station.delivered
      == m.station.delivered + [(first.linkSequence, Store(buffer, f)[..first.transportSize])]
    ensures Within(m.inbox[..1], |buffer|) && Delivered(m, p, first, buffer, 1)
  {
    var got := m.inbox[..1];
    assert got[1..] == [] && Laid(Store(buffer, f), []) == Store(buffer, f);
    assert Acknowledged(got) == [Answer(f, true)] + Acknowledged([]);
  }

  /** What one read makes of a call that waits for the fragment with this index. */
  lemma ReadNext(m: Machine, first: Frame, index: nat, buffer: seq<byte>)
    requires Working(m) && Listening(m.station) && m.station.call == Next(first, index, buffer)
    requires index < first.fragmentCount
    ensures var p := Pulse(m);
      if m.inbox != [] && m.inbox[0].Some? && Continues(first, index, |buffer|, m.inbox[0].value)
        && GoesOut(m.verdicts, 0)
      then
        var f := m.inbox[0].value;
        && p.inbox == m.inbox[1..] && p.verdicts == Rest(m.verdicts) && p.outbox == m.outbox + [Answer(f, true)]
        && var now := Store(buffer, f);
          if index + 1 < first.fragmentCount then
            Listening(p.station) && p.station.call == Next(first, index + 1, now)
            && p.station.delivered == m.station.delivered
          else
            p.station.call.Idle? && p.station.delivered
              == m.station.delivered + [(first.linkSequence, now[..first.transportSize])]
      else p.station.call.Idle? && p.station.delivered == m.station.delivered
  {
    if m.inbox != [] && m.inbox[0].Some? && Continues(first, index, |buffer|, m.inbox[0].value) {
      assert OnNext(first, index, buffer, m.inbox[0].value) == Accept(Store(buffer, m.inbox[0].value));
    }
  }

  /** A call that has stored the fragments below index. */
  lemma {:induction false} ContinuesExactly(m: Machine, first: Frame, index: nat, buffer: seq<byte>)
    requires Working(m) && Listening(m.station) && m.station.call == Next(first, index, buffer)
    requires index < first.fragmentCount
    ensures var n := first.fragmentCount - index;
      if Follows(m.inbox, m.verdicts, first, index, |buffer|, n) then
        Within(m.inbox[..n], |buffer|) && Delivered(m, Drive(m), first, buffer, n)
      else Drive(m).station.delivered == m.station.delivered
    decreases |m.inbox|
  {
    var n, p := first.fragmentCount - index, Pulse(m);
    DriveUnfolds(m);
    FollowsNext(m.inbox, m.verdicts, first, index, |buffer|, n);
    ReadNext(m, first, index, buffer);
    if p.station.call.Idle? {
      IdleDrives(p);
      if Follows(m.inbox, m.verdicts, first, index, |buffer|, n) {
        OnlyOne(m, p, first, buffer, m.inbox[0].value);
      }
    } else {
      var f := m.inbox[0].value;
      ContinuesExactly(p, first, index + 1, Store(buffer, f));
      if Follows(p.inbox, p.verdicts, first, index + 1, |buffer|, n - 1) {
        DeliveredNext(m, p, Drive(p), first, buffer, f, n - 1);
      }
    }
  }

  /** What is read behind frames without data decides. */
  ghost predicate Decided(m: Machine, r: Machine, buffer: seq<byte>) {
    var n := if BeginsPacket(m.inbox, m.verdicts, |buffer|) then m.inbox[0].value.fragmentCount else 0;
    if n > 0 then
      n <= |m.inbox| && Within(m.inbox[..n], |buffer|) && Delivered(m, r, m.inbox[0].value, buffer, n)
    else r.station.delivered == m.station.delivered
  }

  /** The first frame opens a packet and its acknowledgement goes out. */
  lemma FirstOpens(m: Machine, f: Frame, buffer: seq<byte>)
    requires Working(m) && Listening(m.station) && m.station.call == First(buffer)
    requires m.inbox != [] && m.inbox[0] == Some(f) && Opens(f, |buffer|) && GoesOut(m.verdicts, 0)
    ensures Decided(m, Drive(m), buffer)
  {
    DriveUnfolds(m);
    var p, now, n := Pulse(m), Store(buffer, f), f.fragmentCount - 1;
    assert OnFirst(buffer, f) == Accept(now);
    if n > 0 {
      ContinuesExactly(p, f, 1, now);
      if Follows(p.inbox, p.verdicts, f, 1, |buffer|, n) {
        DeliveredNext(m, p, Drive(p), f, buffer, f, n);
      }
    } else {
      OnlyOne(m, p, f, buffer, f);
    }
  }

  lemma FirstDecides(m: Machine, buffer: seq<byte>)
    requires Working(m) && Listening(m.station) && m.station.call == First(buffer)
    requires m.inbox == [] || !Stray(m.inbox[0])
    ensures Decided(m, Drive(m), buffer)
  {
    if m.inbox != [] && m.inbox[0].Some? && Opens(m.inbox[0].value, |buffer|) && GoesOut(m.verdicts, 0) {
      FirstOpens(m, m.inbox[0].value, buffer);
    } else {
      DriveUnfolds(m);
    }
  }

  lemma {:induction false} StraysSkipped(m: Machine, buffer: seq<byte>)
    requires Working(m) && Listening(m.station) && m.station.call == First(buffer)
    ensures Decided(m.(inbox := m.inbox[Strays(m.inbox)..]), Drive(m), buffer)
    decreases |m.inbox|
  {
    if m.inbox == [] || !Stray(m.inbox[0]) {
      assert m.inbox[0..] == m.inbox;
      FirstDecides(m, buffer);
    } else {
      SkipDrives(m);
      StraysSkipped(m.(inbox := m.inbox[1..]), buffer);
      assert m.inbox[1..][Strays(m.inbox[1..])..] == m.inbox[Strays(m.inbox)..];
    }
  }

  /** A receive call delivers a packet exactly if what it reads, behind frames without data, is one first fragment and
      all that belong to it, in order, and every acknowledgement goes out. The packet is then what their payloads leave
      in the buffer, and nothing behind them is read. */
  lemma ReceivesExactly(m: Machine, buffer: seq<byte>)
    requires m.station.call.Idle? && InboxBounded(m.inbox)
    ensures var got, r := m.inbox[Strays(m.inbox)..], Drive(Listened(m, buffer));
      if BeginsPacket(got, m.verdicts, |buffer|) then
        var first, n := got[0].value, got[0].value.fragmentCount;
        && n <= |got| && Within(got[..n], |buffer|)
        && r.station.delivered
          == m.station.delivered + [(first.linkSequence, Laid(buffer, got[..n])[..first.transportSize])]
        && r.inbox == got[n..] && r.outbox == m.outbox + Acknowledged(got[..n])
      else r.station.delivered == m.station.delivered
  {
    StraysSkipped(Listened(m, buffer), buffer);
  }
}
