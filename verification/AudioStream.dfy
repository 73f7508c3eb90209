/** Moving audio bytes to and from a stream that takes or gives as much as it likes. */
module AudioStream {
  import opened Bytes

  const WAIT_RETRIES := 5000

  datatype Direction = Playback | Capture

  /** A question put to the stream and its answer: for the size, for progress, or to move so many bytes. */
  datatype Event = Sized(size: int) | Polled(reply: int) | Moved(offered: nat, moved: int)

  /** The SOF stream: its answers are arbitrary; taken and given are the bytes that really went through it. */
  class SofStream {
    var answers: seq<int>
    var taken: seq<byte>
    var given: seq<byte>
    var source: seq<byte>
    ghost var turns: nat
    ghost var log: seq<Event>

    constructor (answers: seq<int>, source: seq<byte>)
      ensures this.answers == answers && this.source == source && taken == [] && given == [] && turns == 0 && log == []
    {
      this.answers, this.source, taken, given, turns, log := answers, source, [], [], 0, [];
    }

    /** The next answer, and those after it; past the script every answer is 0. */
    function Next(): int
      reads this`answers
    {
      if answers == [] then 0 else answers[0]
    }

    function Later(): seq<int>
      reads this`answers
    {
      if answers == [] then [] else answers[1..]
    }

    method Answer() returns (r: int)
      modifies this`answers
      ensures r == old(Next()) && answers == old(Later())
    {
      r := Next();
      answers := Later();
    }

    /** sof_stream_get_free_size and sof_stream_get_avail_size; one such question opens each turn of a loop. */
    method GetSize() returns (size: int)
      modifies this`answers, this`turns, this`log
      ensures turns == old(turns) + 1 && log == old(log) + [Sized(size)]
      ensures Answers([Sized(size)], old(answers), answers)
    {
      turns := turns + 1;
      size := Answer();
      log := log + [Sized(size)];
    }

    method PollPosition() returns (ok: bool)
      modifies this`answers, this`log
      ensures ok == (old(Next()) == 0) && answers == old(Later()) && log == old(log) + [Polled(old(Next()))]
      ensures Answers([Polled(old(Next()))], old(answers), answers)
    {
      var r := Answer();
      log := log + [Polled(r)];
      ok := r == 0;
    }

    /** sof_stream_write: if it reports a size it was offered, it has taken that many bytes. */
    method Write(data: seq<byte>) returns (ret: int)
      modifies this`answers, this`taken, this`log
      ensures taken == old(taken) + if 0 <= ret <= |data| then data[..ret] else []
      ensures log == old(log) + [Moved(|data|, ret)] && Answers([Moved(|data|, ret)], old(answers), answers)
    {
      ret := Answer();
      log := log + [Moved(|data|, ret)];
      if 0 <= ret <= |data| {
        taken := taken + data[..ret];
      }
    }

    /** sof_stream_read: if it reports a size it was asked for, it has given that many bytes. */
    method Read(size: nat) returns (ret: int, data: seq<byte>)
      modifies this`answers, this`given, this`source, this`log
      ensures log == old(log) + [Moved(size, ret)] && Answers([Moved(size, ret)], old(answers), answers)
      ensures 0 <= ret <= size ==> |data| == ret
      ensures !(0 <= ret <= size) ==> data == []
      ensures given == old(given) + data
    {
      ret := Answer();
      log := log + [Moved(size, ret)];
      data := [];
      if 0 <= ret <= size {
        while |data| < ret
          invariant |data| <= ret && given == old(given) && answers == old(Later())
          invariant log == old(log) + [Moved(size, ret)]
        {
          data := data + if source == [] then [0] else [source[0]];
          source := if source == [] then [] else source[1..];
        }
      }
      given := given + data;
    }
  }

  lemma Scaled(d: int, m: int)
    requires m >= 0
    ensures (d >= 1 ==> d * m >= m) && (d <= -1 ==> d * m <= -m)
  {
    if d >= 1 {
      assert d * m == (d - 1) * m + m;
    }
    if d <= -1 {
      assert d * m == (d + 1) * m - m;
    }
  }

  lemma MulDiv(x: nat, m: nat)
    requires m > 0
    ensures x * m % m == 0 && x * m / m == x
  {
    var q := x * m / m;
    var r := x * m % m;
    assert x * m == q * m + r;
    assert (x - q) * m == r;
    Scaled(x - q, m);
  }

  lemma WholeFrames(size: nat, frameBytes: nat)
    requires frameBytes > 0
    ensures var whole := size / frameBytes * frameBytes; 0 <= whole <= size && whole % frameBytes == 0
    ensures size % frameBytes == 0 ==> size / frameBytes * frameBytes == size
    ensures size < size / frameBytes * frameBytes + frameBytes
  {
    assert size == size / frameBytes * frameBytes + size % frameBytes;
    MulDiv(size / frameBytes, frameBytes);
  }

  lemma RoundedDown(size: nat, frameBytes: nat, whole: int)
    requires frameBytes > 0 && whole == size / frameBytes * frameBytes
    ensures whole % frameBytes == 0 && 0 <= whole <= size < whole + frameBytes
    ensures whole == 0 <==> size < frameBytes
  {
    WholeFrames(size, frameBytes);
    Scaled(size / frameBytes, frameBytes);
  }

  /** Whole frames add up. */
  lemma FramesAdd(a: nat, b: nat, frameBytes: nat)
    requires frameBytes > 0 && a % frameBytes == 0 && b % frameBytes == 0
    ensures (a + b) % frameBytes == 0 && (a + b) / frameBytes == a / frameBytes + b / frameBytes
    ensures b > 0 ==> b / frameBytes >= 1
  {
    var x, y := a / frameBytes, b / frameBytes;
    assert a == x * frameBytes && b == y * frameBytes;
    assert a + b == (x + y) * frameBytes;
    MulDiv(x + y, frameBytes);
  }

  // ---- what a transfer and its stream say to each other ----------------------------------------------

  /** The bytes moved so far. */
  function Sum(log: seq<Event>): int {
    if log == [] then 0
    else Sum(log[..|log| - 1]) + if log[|log| - 1].Moved? then log[|log| - 1].moved else 0
  }

  /** The waits since bytes were last moved. */
  function WaitsInRow(log: seq<Event>): nat {
    if log == [] then 0
    else match log[|log| - 1]
      case Polled(_) => WaitsInRow(log[..|log| - 1]) + 1
      case Moved(_, moved) => if moved == 0 then WaitsInRow(log[..|log| - 1]) else 0
      case Sized(_) => WaitsInRow(log[..|log| - 1])
  }

  /** The position cannot be polled, or a move reports an error, more than was offered, or a broken frame. */
  predicate Fault(e: Event, frameBytes: nat)
    requires frameBytes != 0
  {
    match e
    case Sized(_) => false
    case Polled(reply) => reply != 0
    case Moved(offered, moved) => moved < 0 || moved > offered || moved % frameBytes != 0
  }

  /** Nothing could be moved: there is no room for a whole frame, or none of those offered was taken. */
  predicate Stalls(e: Event, frameBytes: nat) {
    (e.Sized? && e.size < frameBytes) || (e.Moved? && e.moved == 0)
  }

  /** n is the most whole frames within a size and within what remains. */
  predicate MostFrames(n: nat, size: int, remaining: int, frameBytes: nat)
    requires frameBytes != 0
  {
    n % frameBytes == 0 && n <= size && n <= remaining && (size < n + frameBytes || remaining < n + frameBytes)
  }

  /** What may be asked after this dialogue: the size first; after a stall, to wait; otherwise, to move all that
      fits. */
  predicate MayAsk(log: seq<Event>, e: Event, total: nat, frameBytes: nat)
    requires frameBytes != 0
  {
    if log == [] then e.Sized?
    else
      var last := log[|log| - 1];
      if Stalls(last, frameBytes) then e.Polled?
      else if last.Sized? then e.Moved? && MostFrames(e.offered, last.size, total - Sum(log), frameBytes)
      else e.Sized?
  }

  /** Every question follows from those before it, nothing went wrong before the last answer, and no wait was too
      many. */
  predicate Dialogue(log: seq<Event>, total: nat, frameBytes: nat)
    requires frameBytes != 0
  {
    log == []
    || (var before := log[..|log| - 1];
        Dialogue(before, total, frameBytes) && MayAsk(before, log[|log| - 1], total, frameBytes)
        && (before != [] ==> !Fault(before[|before| - 1], frameBytes)) && WaitsInRow(log) <= WAIT_RETRIES)
  }

  /** A transfer cannot go on: something went wrong, or it would have to wait once more than it may. */
  predicate Hopeless(log: seq<Event>, frameBytes: nat)
    requires frameBytes != 0
  {
    log != [] && var last := log[|log| - 1];
      Fault(last, frameBytes) || (Stalls(last, frameBytes) && WaitsInRow(log) == WAIT_RETRIES)
  }

  /** A dialogue at the beginning of a turn: done bytes were moved, and waits were made since. */
  predicate AtTurn(log: seq<Event>, total: nat, frameBytes: nat, done: nat, waits: nat)
    requires frameBytes != 0
  {
    Dialogue(log, total, frameBytes) && Sum(log) == done && WaitsInRow(log) == waits <= WAIT_RETRIES
    && (log == [] || (var last := log[|log| - 1];
          !Fault(last, frameBytes) && !Stalls(last, frameBytes) && !last.Sized?))
  }

  function Reply(e: Event): int {
    match e
    case Sized(size) => size
    case Polled(reply) => reply
    case Moved(_, moved) => moved
  }

  function Scripted(script: seq<int>, k: nat): int {
    if k < |script| then script[k] else 0
  }

  /** The stream answered as the script says, and this is what is left of the script. */
  ghost predicate Answers(log: seq<Event>, script: seq<int>, left: seq<int>) {
    (forall k | 0 <= k < |log| :: Reply(log[k]) == Scripted(script, k))
    && left == if |log| <= |script| then script[|log|..] else []
  }

  lemma AnswersOn(log: seq<Event>, more: seq<Event>, script: seq<int>, left: seq<int>, rest: seq<int>)
    requires Answers(log, script, left) && Answers(more, left, rest)
    ensures Answers(log + more, script, rest)
  {
    forall k | |log| <= k < |log + more|
      ensures Reply((log + more)[k]) == Scripted(script, k)
    {
      assert Reply(more[k - |log|]) == Scripted(left, k - |log|);
    }
  }

  /** A stalled turn: it waits, unless it may not. */
  predicate Waited(said: seq<Event>, waits: nat, ok: bool) {
    if waits < WAIT_RETRIES then |said| == 1 && said[0].Polled? && (ok <==> said[0].reply == 0)
    else said == [] && !ok
  }

  /** One turn of a transfer: the size is asked for, what fits is moved, and a stall waits. */
  predicate IsTurn(said: seq<Event>, remaining: nat, waits: nat, frameBytes: nat, ok: bool, chunk: nat)
    requires frameBytes != 0
  {
    said != [] && said[0].Sized?
    && if said[0].size < frameBytes then chunk == 0 && Waited(said[1..], waits, ok)
       else
         |said| >= 2 && said[1].Moved? && MostFrames(said[1].offered, said[0].size, remaining, frameBytes)
         && if said[1].moved == 0 then chunk == 0 && Waited(said[2..], waits, ok)
            else |said| == 2 && (ok <==> !Fault(said[1], frameBytes)) && (ok ==> chunk == said[1].moved)
  }

  lemma WaitSaid(log: seq<Event>, said: seq<Event>, total: nat, frameBytes: nat, done: nat, waits: nat, ok: bool)
    requires frameBytes != 0 && Dialogue(log, total, frameBytes) && WaitsInRow(log) == waits <= WAIT_RETRIES
    requires Sum(log) == done
    requires log != [] && Stalls(log[|log| - 1], frameBytes) && !Fault(log[|log| - 1], frameBytes)
    requires Waited(said, waits, ok)
    ensures if ok then AtTurn(log + said, total, frameBytes, done, waits + 1)
            else Dialogue(log + said, total, frameBytes) && Hopeless(log + said, frameBytes)
  {
    if waits < WAIT_RETRIES {
      assert said == [said[0]];
      Said(log, said[0], total, frameBytes);
    } else {
      assert log + said == log;
    }
  }

  /** The size was asked for, and there is room. */
  lemma MoveSaid(log: seq<Event>, said: seq<Event>, total: nat, frameBytes: nat, done: nat, waits: nat,
      ok: bool, chunk: nat)
    requires frameBytes != 0 && Dialogue(log, total, frameBytes) && Sum(log) == done < total
    requires log != [] && log[|log| - 1].Sized? && !Stalls(log[|log| - 1], frameBytes)
    requires WaitsInRow(log) == waits <= WAIT_RETRIES
    requires said != [] && said[0].Moved?
    requires MostFrames(said[0].offered, log[|log| - 1].size, total - done, frameBytes)
    requires if said[0].moved == 0 then chunk == 0 && Waited(said[1..], waits, ok)
             else |said| == 1 && (ok <==> !Fault(said[0], frameBytes)) && (ok ==> chunk == said[0].moved)
    ensures if ok then AtTurn(log + said, total, frameBytes, done + chunk, if chunk == 0 then waits + 1 else 0)
            else Dialogue(log + said, total, frameBytes) && Hopeless(log + said, frameBytes)
  {
    Said(log, said[0], total, frameBytes);
    var moved := log + [said[0]];
    assert log + said == moved + said[1..];
    if said[0].moved == 0 {
      WaitSaid(moved, said[1..], total, frameBytes, done, waits, ok);
    } else {
      assert moved + said[1..] == moved;
    }
  }

  lemma SizeSaid(log: seq<Event>, size: int, total: nat, frameBytes: nat, done: nat, waits: nat)
    requires frameBytes != 0 && AtTurn(log, total, frameBytes, done, waits)
    ensures var asked := log + [Sized(size)];
      Dialogue(asked, total, frameBytes) && Sum(asked) == done && WaitsInRow(asked) == waits <= WAIT_RETRIES
  {
    Said(log, Sized(size), total, frameBytes);
  }

  /** A turn carries the dialogue on to the next turn, or to where it is hopeless. */
  lemma TurnSaid(log: seq<Event>, said: seq<Event>, total: nat, frameBytes: nat, done: nat, waits: nat,
      ok: bool, chunk: nat)
    requires frameBytes != 0 && done < total && AtTurn(log, total, frameBytes, done, waits)
    requires IsTurn(said, total - done, waits, frameBytes, ok, chunk)
    ensures if ok then AtTurn(log + said, total, frameBytes, done + chunk, if chunk == 0 then waits + 1 else 0)
            else Dialogue(log + said, total, frameBytes) && Hopeless(log + said, frameBytes)
  {
    SizeSaid(log, said[0].size, total, frameBytes, done, waits);
    var asked := log + [said[0]];
    assert log + said == asked + said[1..];
    if said[0].size < frameBytes {
      WaitSaid(asked, said[1..], total, frameBytes, done, waits, ok);
    } else {
      assert said[1..][1..] == said[2..];
      MoveSaid(asked, said[1..], total, frameBytes, done, waits, ok, chunk);
    }
  }

  /** Mentioned where it is to be seen what a dialogue says. */
  ghost predicate Heard(said: seq<Event>, n: nat) { true }

  /** A turn that the script answers. */
  ghost predicate Turn(said: seq<Event>, script: seq<int>, left: seq<int>, remaining: nat, waits: nat, frameBytes: nat,
    ok: bool, chunk: nat)
    requires frameBytes != 0
  {
    forall n {:trigger Heard(said, n)} :: Heard(said, n) ==>
      Answers(said, script, left) && IsTurn(said, remaining, waits, frameBytes, ok, chunk)
  }

  /** A transfer of total bytes that the script answers, at the beginning of a turn. */
  ghost predicate Underway(said: seq<Event>, script: seq<int>, left: seq<int>, total: nat, frameBytes: nat,
    done: nat, waits: nat)
    requires frameBytes != 0
  {
    forall n {:trigger Heard(said, n)} :: Heard(said, n) ==>
      Answers(said, script, left) && AtTurn(said, total, frameBytes, done, waits)
  }

  /**
   * A transfer that is over: it asked what it may ask and the script answered, and it succeeded, all bytes moved,
   * exactly if it did not become hopeless.
   */
  ghost predicate Over(said: seq<Event>, script: seq<int>, left: seq<int>, total: nat, frameBytes: nat, ok: bool)
    requires frameBytes != 0
  {
    forall n {:trigger Heard(said, n)} :: Heard(said, n) ==>
      Answers(said, script, left) && Dialogue(said, total, frameBytes)
      && (ok <==> !Hopeless(said, frameBytes)) && (ok ==> Sum(said) == total)
  }

  /** No room for a whole frame. */
  lemma NoRoomTurn(size: int, more: seq<Event>, script: seq<int>, left: seq<int>, rest: seq<int>,
      remaining: nat, waits: nat, frameBytes: nat, ok: bool)
    requires 0 < frameBytes && size < frameBytes && Waited(more, waits, ok)
    requires Answers([Sized(size)], script, left) && Answers(more, left, rest)
    ensures Turn([Sized(size)] + more, script, rest, remaining, waits, frameBytes, ok, 0)
  {
    var said := [Sized(size)] + more;
    assert said[1..] == more;
    AnswersOn([Sized(size)], more, script, left, rest);
  }

  /** Something was offered and something moved. */
  lemma MoveTurn(size: int, offered: nat, moved: int, script: seq<int>, left: seq<int>, rest: seq<int>,
      remaining: nat, waits: nat, frameBytes: nat, ok: bool, chunk: nat)
    requires 0 < frameBytes <= size && MostFrames(offered, size, remaining, frameBytes) && moved != 0
    requires Answers([Sized(size)], script, left) && Answers([Moved(offered, moved)], left, rest)
    requires (ok <==> !Fault(Moved(offered, moved), frameBytes)) && (ok ==> chunk == moved)
    ensures Turn([Sized(size), Moved(offered, moved)], script, rest, remaining, waits, frameBytes, ok, chunk)
  {
    AnswersOn([Sized(size)], [Moved(offered, moved)], script, left, rest);
    assert [Sized(size)] + [Moved(offered, moved)] == [Sized(size), Moved(offered, moved)];
  }

  /** Something was offered and nothing moved. */
  lemma IdleTurn(size: int, offered: nat, more: seq<Event>, script: seq<int>, left: seq<int>, later: seq<int>,
      rest: seq<int>, remaining: nat, waits: nat, frameBytes: nat, ok: bool)
    requires 0 < frameBytes <= size && MostFrames(offered, size, remaining, frameBytes) && Waited(more, waits, ok)
    requires Answers([Sized(size)], script, left) && Answers([Moved(offered, 0)], left, later)
    requires Answers(more, later, rest)
    ensures Turn([Sized(size), Moved(offered, 0)] + more, script, rest, remaining, waits, frameBytes, ok, 0)
  {
    AnswersOn([Sized(size)], [Moved(offered, 0)], script, left, later);
    var asked := [Sized(size), Moved(offered, 0)];
    assert [Sized(size)] + [Moved(offered, 0)] == asked;
    assert (asked + more)[2..] == more;
    AnswersOn(asked, more, script, later, rest);
  }

  lemma Begins(script: seq<int>, total: nat, frameBytes: nat)
    requires frameBytes != 0
    ensures Underway([], script, script, total, frameBytes, 0, 0)
  {}

  lemma GoesOn(said: seq<Event>, more: seq<Event>, script: seq<int>, left: seq<int>, rest: seq<int>,
      total: nat, frameBytes: nat, done: nat, waits: nat, ok: bool, chunk: nat)
    requires frameBytes != 0 && done < total && Underway(said, script, left, total, frameBytes, done, waits)
    requires Turn(more, left, rest, total - done, waits, frameBytes, ok, chunk)
    ensures if ok then Underway(said + more, script, rest, total, frameBytes, done + chunk,
                         if chunk == 0 then waits + 1 else 0)
            else Over(said + more, script, rest, total, frameBytes, false)
  {
    assert Heard(said, 0) && Heard(more, 0);
    TurnSaid(said, more, total, frameBytes, done, waits, ok, chunk);
    AnswersOn(said, more, script, left, rest);
  }

  lemma Ends(said: seq<Event>, script: seq<int>, left: seq<int>, total: nat, frameBytes: nat, waits: nat)
    requires frameBytes != 0 && Underway(said, script, left, total, frameBytes, total, waits)
    ensures Over(said, script, left, total, frameBytes, true)
  {
    assert Heard(said, 0);
  }

  lemma Said(log: seq<Event>, e: Event, total: nat, frameBytes: nat)
    requires frameBytes != 0 && Dialogue(log, total, frameBytes) && MayAsk(log, e, total, frameBytes)
    requires log != [] ==> !Fault(log[|log| - 1], frameBytes)
    requires e.Polled? ==> WaitsInRow(log) < WAIT_RETRIES
    ensures Dialogue(log + [e], total, frameBytes)
    ensures Sum(log + [e]) == Sum(log) + if e.Moved? then e.moved else 0
    ensures WaitsInRow(log + [e])
         == if e.Polled? then WaitsInRow(log) + 1 else if e.Moved? && e.moved != 0 then 0 else WaitsInRow(log)
  {
    assert (log + [e])[..|log|] == log;
  }

  // ---- counting frames, kept apart from everything else ---------------------------------------------

  /** Mentioned where it is to be seen how n is counted in frames. */
  ghost predicate Counts(n: nat, k: nat) { true }

  /** n bytes are whole frames. */
  ghost predicate Whole(n: nat, frameBytes: nat)
    requires frameBytes != 0
  {
    forall k {:trigger Counts(n, k)} :: Counts(n, k) ==> n % frameBytes == 0
  }

  /** n bytes end within a frame. */
  ghost predicate Broken(n: nat, frameBytes: nat)
    requires frameBytes != 0
  {
    forall k {:trigger Counts(n, k)} :: Counts(n, k) ==> n % frameBytes != 0
  }

  /** n bytes are whole frames, and a frame counter went from f to g for them. */
  ghost predicate Counted(n: nat, frameBytes: nat, f: nat, g: nat)
    requires frameBytes != 0
  {
    forall k {:trigger Counts(n, k)} :: Counts(n, k) ==> n % frameBytes == 0 && g == f + n / frameBytes
  }

  lemma WholeHasFrame(n: nat, frameBytes: nat)
    requires frameBytes > 0 && n > 0 && Whole(n, frameBytes)
    ensures n >= frameBytes && n / frameBytes * frameBytes == n
  {
    assert Counts(n, 0);
    WholeFrames(n, frameBytes);
    FramesAdd(0, n, frameBytes);
    Scaled(n / frameBytes, frameBytes);
  }

  lemma CountNone(frameBytes: nat, f: nat)
    requires frameBytes != 0
    ensures Counted(0, frameBytes, f, f)
  {}

  lemma CountMore(n: nat, more: nat, frameBytes: nat, f: nat, g: nat, h: nat)
    requires frameBytes != 0 && Counted(n, frameBytes, f, g) && Counted(more, frameBytes, g, h)
    ensures Counted(n + more, frameBytes, f, h) && g <= h && (more > 0 <==> g < h)
  {
    assert Counts(n, 0) && Counts(more, 0);
    FramesAdd(n, more, frameBytes);
  }

  lemma CountLeft(n: nat, total: nat, frameBytes: nat, f: nat, g: nat)
    requires frameBytes != 0 && n <= total && Counted(n, frameBytes, f, g)
    ensures g <= f + total / frameBytes
    ensures Whole(total, frameBytes) ==> Whole(total - n, frameBytes)
  {
    assert Counts(n, 0) && Counts(total, 0);
    FramesWithin(n, total, frameBytes);
    if Whole(total, frameBytes) {
      FramesLeft(n, total, frameBytes);
    }
  }

  lemma FramesLeft(done: nat, total: nat, frameBytes: nat)
    requires frameBytes > 0 && done <= total && done % frameBytes == 0 && total % frameBytes == 0
    ensures (total - done) % frameBytes == 0
  {
    var x, y := done / frameBytes, total / frameBytes;
    assert done == x * frameBytes && total == y * frameBytes;
    assert total - done == (y - x) * frameBytes;
    FramesWithin(done, total, frameBytes);
    MulDiv(y - x, frameBytes);
  }

  class Slot {
    const stream: SofStream
    var running: bool
    var direction: Direction
    var frameBytes: nat
    var framesWritten: nat
    var framesRead: nat

    constructor (stream: SofStream)
      ensures this.stream == stream
    {
      this.stream := stream;
      running, direction, frameBytes, framesWritten, framesRead := false, Playback, 0, 0, 0;
    }

    /** ac_audio_wait_stream_progress: a wait is granted exactly if the limit is not reached and the position can be
        polled, and the stream is only asked below the limit. */
    method WaitProgress(waits: nat) returns (ok: bool, ghost said: seq<Event>)
      modifies stream`answers, stream`log
      ensures ok <==> waits < WAIT_RETRIES && old(stream.Next()) == 0
      ensures stream.log == old(stream.log) + said && Waited(said, waits, ok)
      ensures Answers(said, old(stream.answers), stream.answers)
      ensures stream.answers == if waits < WAIT_RETRIES then old(stream.Later()) else old(stream.answers)
    {
      said := [];
      if waits >= WAIT_RETRIES {
        return false, [];
      }
      said := [Polled(stream.Next())];
      ok := stream.PollPosition();
    }

    predicate Writable(payload: seq<byte>)
      reads this
    {
      running && direction == Playback && payload != [] && frameBytes != 0 && |payload| % frameBytes == 0
    }

    /** The most that one write may offer: whole frames within what remains and what the stream has room for. */
    method Offer(remaining: nat, size: int) returns (n: nat)
      requires frameBytes != 0 && remaining > 0 && Whole(remaining, frameBytes)
      ensures n == 0 <==> size < frameBytes
      ensures n <= remaining && (n != 0 ==> MostFrames(n, size, remaining, frameBytes))
    {
      WholeHasFrame(remaining, frameBytes);
      if size <= 0 {
        return 0;
      }
      n := if size < remaining then size else remaining;
      RoundedDown(n, frameBytes, n / frameBytes * frameBytes);
      n := n / frameBytes * frameBytes;
    }

    /** One turn of the write loop: a chunk of whole frames is taken, or nothing is and the turn waited, or the
        transfer fails, extra bytes of a broken frame perhaps having been taken. */
    method WriteTurn(payload: seq<byte>, done: nat, waits: nat)
      returns (ok: bool, chunk: nat, ghost extra: nat, ghost said: seq<Event>)
      requires frameBytes != 0 && done < |payload| && Whole(|payload| - done, frameBytes)
      requires waits <= WAIT_RETRIES
      modifies this`framesWritten, stream
      ensures stream.log == old(stream.log) + said
      ensures Turn(said, old(stream.answers), stream.answers, |payload| - done, waits, frameBytes, ok, chunk)
      ensures stream.turns == old(stream.turns) + 1 && done + chunk + extra <= |payload|
      ensures stream.taken == old(stream.taken) + payload[done..done + chunk + extra]
      ensures Counted(chunk, frameBytes, old(framesWritten), framesWritten)
      ensures ok ==> extra == 0 && (chunk == 0 ==> waits < WAIT_RETRIES)
      ensures !ok ==> chunk == 0 && (extra != 0 ==> Broken(extra, frameBytes))
    {
      chunk, extra := 0, 0;
      CountNone(frameBytes, framesWritten);
      var freeSize := stream.GetSize();
      ghost var left := stream.answers;
      var writeSize := Offer(|payload| - done, freeSize);
      if writeSize == 0 {
        ok, said := WaitProgress(waits);
        NoRoomTurn(freeSize, said, old(stream.answers), left, stream.answers, |payload| - done, waits, frameBytes, ok);
        said := [Sized(freeSize)] + said;
        return;
      }
      var ret := stream.Write(payload[done..done + writeSize]);
      said := [Sized(freeSize), Moved(writeSize, ret)];
      if ret < 0 || ret > writeSize {
        MoveTurn(freeSize, writeSize, ret, old(stream.answers), left, stream.answers, |payload| - done, waits,
          frameBytes, false, 0);
        return false, 0, 0, said;
      }
      assert payload[done..done + writeSize][..ret] == payload[done..done + ret];
      if ret == 0 {
        ghost var later, more := stream.answers, [];
        ok, more := WaitProgress(waits);
        IdleTurn(freeSize, writeSize, more, old(stream.answers), left, later, stream.answers, |payload| - done, waits,
          frameBytes, ok);
        said := said + more;
        return;
      }
      if ret % frameBytes != 0 {
        MoveTurn(freeSize, writeSize, ret, old(stream.answers), left, stream.answers, |payload| - done, waits,
          frameBytes, false, 0);
        return false, 0, ret, said;
      }
      framesWritten := framesWritten + ret / frameBytes;
      MoveTurn(freeSize, writeSize, ret, old(stream.answers), left, stream.answers, |payload| - done, waits,
        frameBytes, true, ret);
      return true, ret, 0, said;
    }

    /** ac_audio_write_stream: whatever the stream answers, the call ends within a bounded number of turns; on
        success every byte was taken once and in order; on failure the whole-frame chunks taken are a prefix of
        the payload, and the counter has advanced by exactly their frames. It fails only where the stream leaves
        it no choice. */
    method WriteStream(payload: seq<byte>)
      returns (ok: bool, ghost moved: nat, ghost extra: nat, ghost said: seq<Event>)
      modifies this`framesWritten, stream
      ensures moved + extra <= |payload| && stream.taken == old(stream.taken) + payload[..moved + extra]
      ensures stream.log == old(stream.log) + said
      ensures !Writable(payload) ==> !ok && moved == extra == 0 && framesWritten == old(framesWritten) && said == []
      ensures Writable(payload) ==>
        Over(said, old(stream.answers), stream.answers, |payload|, frameBytes, ok)
      ensures Writable(payload) ==>
        Counted(moved, frameBytes, old(framesWritten), framesWritten) && (extra != 0 ==> Broken(extra, frameBytes))
        && stream.turns <= old(stream.turns) + (|payload| / frameBytes + 1) * (WAIT_RETRIES + 1)
      ensures ok ==> Writable(payload) && moved == |payload| && extra == 0
    {
      moved, extra, said := 0, 0, [];
      if !Writable(payload) {
        return false, 0, 0, [];
      }
      var done, waits := 0, 0;
      CountNone(frameBytes, framesWritten);
      assert Whole(|payload|, frameBytes);
      Begins(stream.answers, |payload|, frameBytes);
      while done < |payload|
        invariant stream.log == old(stream.log) + said
        invariant Underway(said, old(stream.answers), stream.answers, |payload|, frameBytes, done, waits)
        invariant moved == done <= |payload| && extra == 0 && waits <= WAIT_RETRIES
        invariant Counted(done, frameBytes, old(framesWritten), framesWritten) && old(framesWritten) <= framesWritten
        invariant Whole(|payload|, frameBytes) && stream.taken == old(stream.taken) + payload[..done]
        invariant stream.turns <= old(stream.turns) + (framesWritten - old(framesWritten)) * (WAIT_RETRIES + 1) + waits
        decreases |payload| - done, WAIT_RETRIES - waits
      {
        var chunk;
        ghost var more, left := [], stream.answers;
        ghost var count := framesWritten;
        CountLeft(done, |payload|, frameBytes, old(framesWritten), framesWritten);
        ok, chunk, extra, more := WriteTurn(payload, done, waits);
        GoesOn(said, more, old(stream.answers), left, stream.answers, |payload|, frameBytes, done, waits, ok, chunk);
        Regroup(old(stream.log), said, more);
        said := said + more;
        TakenNext(old(stream.taken), payload, done, chunk + extra);
        CountMore(done, chunk, frameBytes, old(framesWritten), count, framesWritten);
        if !ok {
          return;
        }
        if chunk == 0 {
          waits := waits + 1;
        } else {
          done, waits := done + chunk, 0;
          moved := done;
        }
      }
      CountLeft(done, |payload|, frameBytes, old(framesWritten), framesWritten);
      Ends(said, old(stream.answers), stream.answers, |payload|, frameBytes, waits);
      ok := true;
    }

    /** What the stream wrote into the caller's buffer. */
    method CopyIn(target: array<byte>, at: nat, data: seq<byte>)
      requires at + |data| <= target.Length
      modifies target
      ensures Wrote(old(target[..]), target[..], at, data)
    {
      for i := 0 to |data|
        invariant forall k | 0 <= k < target.Length ::
          target[k] == if at <= k < at + i then data[k - at] else old(target[k])
      {
        target[at + i] := data[i];
      }
      assert target[..] == old(target[..at]) + data + old(target[at + |data|..]);
    }

    /** One turn of the read loop, as in writing. */
    method ReadTurn(payload: array<byte>, done: nat, total: nat, waits: nat)
      returns (ok: bool, chunk: nat, ghost got: seq<byte>, ghost said: seq<Event>)
      requires frameBytes != 0 && done < total <= payload.Length && Whole(total - done, frameBytes)
      requires waits <= WAIT_RETRIES
      modifies this`framesRead, stream, payload
      ensures stream.log == old(stream.log) + said
      ensures Turn(said, old(stream.answers), stream.answers, total - done, waits, frameBytes, ok, chunk)
      ensures stream.turns == old(stream.turns) + 1 && done + |got| <= total
      ensures stream.given == old(stream.given) + got && Wrote(old(payload[..]), payload[..], done, got)
      ensures Counted(chunk, frameBytes, old(framesRead), framesRead)
      ensures ok ==> |got| == chunk && (chunk == 0 ==> waits < WAIT_RETRIES)
      ensures !ok ==> chunk == 0 && (got != [] ==> Broken(|got|, frameBytes))
    {
      chunk, got := 0, [];
      WroteNothing(payload[..], done);
      CountNone(frameBytes, framesRead);
      var availSize := stream.GetSize();
      ghost var left := stream.answers;
      var readSize := Offer(total - done, availSize);
      if readSize == 0 {
        ok, said := WaitProgress(waits);
        NoRoomTurn(availSize, said, old(stream.answers), left, stream.answers, total - done, waits, frameBytes, ok);
        said := [Sized(availSize)] + said;
        return;
      }
      var ret, data := stream.Read(readSize);
      said := [Sized(availSize), Moved(readSize, ret)];
      if ret < 0 || ret > readSize {
        MoveTurn(availSize, readSize, ret, old(stream.answers), left, stream.answers, total - done, waits, frameBytes,
          false, 0);
        return false, 0, [], said;
      }
      CopyIn(payload, done, data);
      if ret == 0 {
        ghost var later, more := stream.answers, [];
        ok, more := WaitProgress(waits);
        IdleTurn(availSize, readSize, more, old(stream.answers), left, later, stream.answers, total - done, waits,
          frameBytes, ok);
        said := said + more;
        return;
      }
      if ret % frameBytes != 0 {
        MoveTurn(availSize, readSize, ret, old(stream.answers), left, stream.answers, total - done, waits, frameBytes,
          false, 0);
        return false, 0, data, said;
      }
      framesRead := framesRead + ret / frameBytes;
      MoveTurn(availSize, readSize, ret, old(stream.answers), left, stream.answers, total - done, waits, frameBytes,
        true, ret);
      return true, ret, data, said;
    }

    /** The bytes a read call sets out for: whole frames, at most what was asked and what the buffer holds. */
    function Goal(maxBytes: nat, capacity: nat): nat
      requires frameBytes != 0
      reads this
    {
      (if maxBytes == 0 || maxBytes > capacity then capacity else maxBytes) / frameBytes * frameBytes
    }

    predicate Readable(maxBytes: nat, capacity: nat)
      reads this
    {
      running && direction == Capture && frameBytes != 0 && Goal(maxBytes, capacity) != 0
    }

    /** ac_audio_read_stream: the size reported counts whole frames that stand in the buffer in the order the
        stream gave them; on success it is the goal, and on failure the counter still matches it. It fails only
        where the stream leaves it no choice. */
    method ReadStream(maxBytes: nat, payload: array<byte>)
      returns (ok: bool, actual: nat, ghost extra: nat, ghost said: seq<Event>)
      modifies this`framesRead, stream, payload
      ensures actual + extra <= payload.Length && stream.given == old(stream.given) + payload[..actual + extra]
      ensures payload[actual + extra..] == old(payload[actual + extra..])
      ensures stream.log == old(stream.log) + said
      ensures !Readable(maxBytes, payload.Length) ==>
        !ok && actual == extra == 0 && framesRead == old(framesRead) && said == []
      ensures Readable(maxBytes, payload.Length) ==>
        Over(said, old(stream.answers), stream.answers, Goal(maxBytes, payload.Length), frameBytes, ok)
      ensures Readable(maxBytes, payload.Length) ==>
        Counted(actual, frameBytes, old(framesRead), framesRead) && (extra != 0 ==> Broken(extra, frameBytes))
        && stream.turns <= old(stream.turns) + (payload.Length / frameBytes + 1) * (WAIT_RETRIES + 1)
      ensures ok ==> Readable(maxBytes, payload.Length) && actual == Goal(maxBytes, payload.Length) && extra == 0
    {
      actual, extra, said := 0, 0, [];
      if !Readable(maxBytes, payload.Length) {
        return false, 0, 0, [];
      }
      var total := Goal(maxBytes, payload.Length);
      WholeFrames(if maxBytes == 0 || maxBytes > payload.Length then payload.Length else maxBytes, frameBytes);
      var waits := 0;
      ghost var given := [];
      CountNone(frameBytes, framesRead);
      assert Whole(total, frameBytes);
      Begins(stream.answers, total, frameBytes);
      while actual < total
        invariant stream.log == old(stream.log) + said
        invariant Underway(said, old(stream.answers), stream.answers, total, frameBytes, actual, waits)
        invariant Whole(total, frameBytes) && actual <= total && extra == 0 && waits <= WAIT_RETRIES
        invariant Counted(actual, frameBytes, old(framesRead), framesRead) && old(framesRead) <= framesRead
        invariant stream.given == old(stream.given) + given && Filled(old(payload[..]), payload[..], given, actual)
        invariant stream.turns <= old(stream.turns) + (framesRead - old(framesRead)) * (WAIT_RETRIES + 1) + waits
        decreases total - actual, WAIT_RETRIES - waits
      {
        ghost var before := payload[..];
        var chunk;
        ghost var more, got, left := [], [], stream.answers;
        ghost var count := framesRead;
        CountLeft(actual, total, frameBytes, old(framesRead), framesRead);
        CountLeft(actual, payload.Length, frameBytes, old(framesRead), framesRead);
        ok, chunk, got, more := ReadTurn(payload, actual, total, waits);
        GoesOn(said, more, old(stream.answers), left, stream.answers, total, frameBytes, actual, waits, ok, chunk);
        Regroup(old(stream.log), said, more);
        said := said + more;
        FillMore(old(payload[..]), before, payload[..], given, actual, got);
        Regroup(old(stream.given), given, got);
        given := given + got;
        CountMore(actual, chunk, frameBytes, old(framesRead), count, framesRead);
        if !ok {
          extra := |got|;
          assert Shown(payload[..], actual + extra, 0);
          return;
        }
        assert Filled(old(payload[..]), payload[..], given, actual + chunk);
        if chunk == 0 {
          waits := waits + 1;
        } else {
          actual, waits := actual + chunk, 0;
        }
      }
      CountLeft(actual, payload.Length, frameBytes, old(framesRead), framesRead);
      assert Shown(payload[..], actual, 0);
      Ends(said, old(stream.answers), stream.answers, total, frameBytes, waits);
      ok := true;
    }
  }

  /** The first n bytes of the buffer are what the stream has given, and the others are as they were. */
  ghost predicate Filled(first: seq<byte>, now: seq<byte>, given: seq<byte>, n: nat) {
    forall k {:trigger Shown(now, n, k)} :: Shown(now, n, k) ==>
      n <= |now| == |first| && now[n..] == first[n..] && now[..n] == given
  }

  /** Mentioned where it is to be seen what the buffer holds. */
  ghost predicate Shown(now: seq<byte>, n: nat, k: nat) { true }

  /** Data was written at its place and nowhere else. */
  ghost predicate Wrote(before: seq<byte>, now: seq<byte>, at: nat, data: seq<byte>) {
    forall k {:trigger Shown(now, at, k)} :: Shown(now, at, k) ==>
      at + |data| <= |before| && now == before[..at] + data + before[at + |data|..]
  }

  lemma WroteNothing(s: seq<byte>, at: nat)
    requires at <= |s|
    ensures Wrote(s, s, at, [])
  {}

  lemma FillMore(first: seq<byte>, before: seq<byte>, now: seq<byte>, given: seq<byte>, done: nat, got: seq<byte>)
    requires Filled(first, before, given, done) && Wrote(before, now, done, got)
    ensures Filled(first, now, given + got, done + |got|)
  {
    assert Shown(before, done, 0) && Shown(now, done, 0);
    assert before[done..][|got|..] == before[done + |got|..];
    assert first[done..][|got|..] == first[done + |got|..];
  }

  lemma TakenNext(before: seq<byte>, payload: seq<byte>, done: nat, more: nat)
    requires done + more <= |payload|
    ensures before + payload[..done] + payload[done..done + more] == before + payload[..done + more]
  {}

  lemma FramesWithin(done: nat, total: nat, frameBytes: nat)
    requires frameBytes > 0 && done <= total
    ensures done / frameBytes <= total / frameBytes
  {
    var x, y := done / frameBytes, total / frameBytes;
    assert done == x * frameBytes + done % frameBytes && total == y * frameBytes + total % frameBytes;
    assert (x - y) * frameBytes == x * frameBytes - y * frameBytes;
    Scaled(x - y, frameBytes);
  }
}
