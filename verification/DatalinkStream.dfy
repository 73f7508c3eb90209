/**
 * The receive side of the datalink as a byte stream: frames are cut out of a 2048-byte buffer that is
 * refilled from the device and resynchronised on the magic word.
 */
module DatalinkStream {
  import opened Wrappers
  import opened Bytes
  import opened DatalinkFrame

  const RX_STREAM_SIZE := 2 * MAX_FRAME_SIZE

  /** One answer of the device's read operation: an error code, or some bytes (none after a timeout). */
  datatype ReadResult = Error(code: int) | Data(bytes: seq<byte>)

  datatype Refilled = NoRoom | Nothing | Failed(code: int) | More

  datatype Outcome = GotFrame(frame: Frame) | NoData | Refused | DeviceError(code: int)

  /** The bytes a sequence of device answers delivers. */
  function Delivered(answers: seq<ReadResult>): seq<byte> {
    if answers == [] then []
    else (if answers[0].Data? then answers[0].bytes else []) + Delivered(answers[1..])
  }

  /** The length of the first answer that delivers anything. */
  function Opening(answers: seq<ReadResult>): nat {
    if answers == [] then 0
    else if answers[0].Data? && answers[0].bytes != [] then |answers[0].bytes|
    else Opening(answers[1..])
  }

  /** Every read delivers something. */
  predicate Steady(answers: seq<ReadResult>) {
    answers == [] || (answers[0].Data? && answers[0].bytes != [] && Steady(answers[1..]))
  }

  lemma {:induction false} DeliveredAppend(a: seq<ReadResult>, b: seq<ReadResult>)
    ensures Delivered(a + b) == Delivered(a) + Delivered(b)
  {
    if a == [] {
      assert a + b == b;
    } else {
      assert (a + b)[1..] == a[1..] + b;
      DeliveredAppend(a[1..], b);
    }
  }

  predicate WellSized(f: Frame) {
    Encodable(f) && HEADER_SIZE + |f.payload| <= MAX_FRAME_SIZE
  }

  predicate AllWellSized(frames: seq<Frame>) {
    forall i :: 0 <= i < |frames| ==> WellSized(frames[i])
  }

  /** Frames written back to back. */
  function Stream(frames: seq<Frame>): seq<byte>
    requires AllWellSized(frames)
  {
    if frames == [] then [] else Encode(frames[0]) + Stream(frames[1..])
  }

  // ---- what the front of a well-formed stream looks like ---------------------------------------

  /** The first bytes of a stream of frames, as far as they have arrived. */
  lemma StreamFront(f: Frame, front: seq<byte>, more: seq<byte>, later: seq<byte>)
    requires Encodable(f) && front + more == Encode(f) + later
    ensures forall k :: 0 <= k < 4 && k < |front| ==> front[k] == MAGIC[k]
    ensures |front| >= HEADER_SIZE ==> FrameSize(front) == HEADER_SIZE + |f.payload|
    ensures |front| >= HEADER_SIZE + |f.payload| ==>
      Decode(front[..HEADER_SIZE + |f.payload|]) == Some(f)
      && front[HEADER_SIZE + |f.payload|..] + more == later
  {
    var first := Encode(f);
    FrameStart(f);
    DecodeEncode(f);
    FrontOf(first, front, more, later);
    if |front| >= HEADER_SIZE {
      SameHeaderSameSize(front, first);
    }
  }

  lemma FrontOf(first: seq<byte>, front: seq<byte>, more: seq<byte>, later: seq<byte>)
    requires front + more == first + later
    ensures forall k :: 0 <= k < |front| && k < |first| ==> front[k] == first[k]
    ensures |front| >= |first| ==> front[..|first|] == first && front[|first|..] + more == later
  {
    forall k | 0 <= k < |front| && k < |first|
      ensures front[k] == first[k]
    {
      assert front[k] == (front + more)[k];
      assert first[k] == (first + later)[k];
    }
    if |front| >= |first| {
      assert (front + more)[|first|..] == front[|first|..] + more;
      assert (first + later)[|first|..] == later;
    }
  }

  lemma FrameStart(f: Frame)
    requires Encodable(f)
    ensures Encode(f)[..4] == MAGIC && FrameSize(Encode(f)) == |Encode(f)|
  {
    DecodeEncode(f);
  }

  lemma SameHeaderSameSize(a: seq<byte>, b: seq<byte>)
    requires |a| >= HEADER_SIZE && |b| >= HEADER_SIZE
    requires forall k :: 0 <= k < HEADER_SIZE ==> a[k] == b[k]
    ensures FrameSize(a) == FrameSize(b)
  {
    assert a[..4] == b[..4];
  }

  // ---- the receive memory as a value -------------------------------------------------------------

  /** The memory starts with the magic word, however many of its bytes are buffered ones. */
  predicate Primed(mem: seq<byte>)
    requires |mem| >= 4
  {
    mem[0] == MAGIC[0] && mem[1] == MAGIC[1] && mem[2] == MAGIC[2] && mem[3] == MAGIC[3]
  }

  /** memmove of the buffered bytes behind the first n to the front; the rest keeps its bytes. */
  function Shifted(mem: seq<byte>, size: nat, n: nat): (r: seq<byte>)
    requires n <= size <= |mem|
    ensures |r| == |mem|
  {
    mem[n..size] + mem[size - n..]
  }

  lemma ShiftedParts(mem: seq<byte>, size: nat, n: nat)
    requires n <= size <= |mem|
    ensures Shifted(mem, size, n)[..size - n] == mem[..size][n..]
    ensures forall k :: size - n <= k < |mem| ==> Shifted(mem, size, n)[k] == mem[k]
  {}

  /** memcpy of bytes behind the buffered ones. */
  function Extended(mem: seq<byte>, size: nat, bytes: seq<byte>): (r: seq<byte>)
    requires size + |bytes| <= |mem|
    ensures |r| == |mem|
  {
    mem[..size] + bytes + mem[size + |bytes|..]
  }

  /**
   * The buffered bytes and the answers to come hold exactly these frames, and the magic test will see
   * the magic word: either the memory shows it already, or nothing is buffered and the first answer
   * that delivers anything delivers at least four bytes.
   */
  ghost predicate HoldsNow(mem: seq<byte>, size: nat, answers: seq<ReadResult>, frames: seq<Frame>)
    requires 4 <= |mem| && size <= |mem|
  {
    AllWellSized(frames) && mem[..size] + Delivered(answers) == Stream(frames)
    && (Primed(mem) || (size == 0 && (Opening(answers) == 0 || Opening(answers) >= 4)))
  }

  ghost predicate Holds(mem: seq<byte>, size: nat, answers: seq<ReadResult>, frames: seq<Frame>) {
    4 <= |mem| && size <= |mem|
    && forall n {:trigger Unfolded(n)} :: Unfolded(n) ==> HoldsNow(mem, size, answers, frames)
  }

  lemma HeldIsPrimed(mem: seq<byte>, size: nat, answers: seq<ReadResult>, frames: seq<Frame>)
    requires Holds(mem, size, answers, frames)
    ensures size == 0 || Primed(mem)
  {
    assert Unfolded(0);
  }

  /** As far as frames have arrived, the memory starts with the magic word. */
  lemma FrontIsMagic(mem: seq<byte>, size: nat, more: seq<byte>, frames: seq<Frame>)
    requires size <= |mem| && AllWellSized(frames) && mem[..size] + more == Stream(frames)
    ensures forall k :: 0 <= k < 4 && k < size ==> mem[k] == MAGIC[k]
    ensures frames == [] ==> size == 0
  {
    if frames != [] {
      StreamFront(frames[0], mem[..size], more, Stream(frames[1..]));
    } else {
      assert |mem[..size]| == 0;
    }
  }

  /** The next answer delivers something. */
  predicate Delivers(answers: seq<ReadResult>) {
    answers != [] && answers[0].Data? && answers[0].bytes != []
  }

  /** It delivers nothing. */
  predicate Idles(answers: seq<ReadResult>) {
    answers != [] && !Delivers(answers)
  }

  /** The magic test is about to look at buffered bytes and not find the magic word. */
  predicate Slips(mem: seq<byte>, size: nat, answers: seq<ReadResult>) {
    4 <= |mem|
    && if size > 0 then !Primed(mem)
       else Delivers(answers) && |answers[0].bytes| <= |mem| && !Primed(Extended(mem, 0, answers[0].bytes))
  }

  /** The answers from the first on that delivers anything. */
  function Awake(answers: seq<ReadResult>): seq<ReadResult> {
    if answers == [] || Delivers(answers) then answers else Awake(answers[1..])
  }

  lemma {:induction false} AwakeIs(answers: seq<ReadResult>)
    ensures Delivered(Awake(answers)) == Delivered(answers) && Opening(Awake(answers)) == Opening(answers)
    ensures Opening(answers) > 0 ==> Delivers(Awake(answers)) && |Awake(answers)[0].bytes| == Opening(answers)
  {
    if answers != [] && !Delivers(answers) {
      AwakeIs(answers[1..]);
      assert Delivered(answers) == Delivered(answers[1..]);
    }
  }

  /**
   * For a new reader everything hangs on the first answer that delivers anything, however many deliver nothing
   * before it: with at least four bytes in it all frames come out however the rest is cut up, with one to three
   * bytes some are lost.
   */
  lemma FirstReadDecides(mem: seq<byte>, answers: seq<ReadResult>, frames: seq<Frame>)
    requires |mem| == RX_STREAM_SIZE && forall k :: 0 <= k < |mem| ==> mem[k] == 0
    requires 0 < Opening(answers) <= MAX_FRAME_SIZE
    requires AllWellSized(frames) && Delivered(answers) == Stream(frames)
    ensures Holds(mem, 0, answers, frames) <==> Opening(answers) >= 4
    ensures Slips(mem, 0, Awake(answers)) <==> Opening(answers) < 4
  {
    assert Unfolded(0);
    AwakeIs(answers);
    var awake := Awake(answers);
    assert mem[..0] + Delivered(answers) == Delivered(answers);
    FirstAnswer(mem, awake[0].bytes, Delivered(awake[1..]), frames);
  }

  lemma FirstAnswer(mem: seq<byte>, bytes: seq<byte>, more: seq<byte>, frames: seq<Frame>)
    requires |mem| == RX_STREAM_SIZE && forall k :: 0 <= k < |mem| ==> mem[k] == 0
    requires bytes != [] && |bytes| <= MAX_FRAME_SIZE && AllWellSized(frames) && bytes + more == Stream(frames)
    ensures Primed(Extended(mem, 0, bytes)) <==> |bytes| >= 4
  {
    var mem' := Extended(mem, 0, bytes);
    if |bytes| < 4 {
      assert mem'[3] == 0;
    } else {
      assert mem'[..|bytes|] == bytes;
      FrontIsMagic(mem', |bytes|, more, frames);
      assert Primed(mem');
    }
  }

  /** Removing a frame leaves memory primed: what is not overwritten is the removed frame's magic. */
  lemma PopHolds(mem: seq<byte>, size: nat, answers: seq<ReadResult>, frames: seq<Frame>, n: nat)
    requires Holds(mem, size, answers, frames) && Primed(mem)
    requires frames != [] && n == HEADER_SIZE + |frames[0].payload| <= size
    ensures Holds(Shifted(mem, size, n), size - n, answers, frames[1..])
  {
    assert Unfolded(0);
    var mem', size' := Shifted(mem, size, n), size - n;
    StreamFront(frames[0], mem[..size], Delivered(answers), Stream(frames[1..]));
    ShiftedParts(mem, size, n);
    FrontIsMagic(mem', size', Delivered(answers), frames[1..]);
  }

  /** An answer that delivers nothing keeps the frames. */
  lemma IdleHolds(mem: seq<byte>, size: nat, answers: seq<ReadResult>, frames: seq<Frame>)
    requires Holds(mem, size, answers, frames)
    requires answers != [] && (answers[0].Error? || answers[0].bytes == [])
    ensures Holds(mem, size, answers[1..], frames)
  {
    assert Unfolded(0);
    assert Delivered(answers) == Delivered(answers[1..]);
  }

  /** Reading more bytes keeps the frames, and the memory is primed from then on. */
  lemma RefillHolds(mem: seq<byte>, size: nat, bytes: seq<byte>, later: seq<ReadResult>, frames: seq<Frame>)
    requires Holds(mem, size, [Data(bytes)] + later, frames)
    requires bytes != [] && size + |bytes| <= |mem|
    ensures Holds(Extended(mem, size, bytes), size + |bytes|, later, frames)
  {
    assert Unfolded(0);
    var answers := [Data(bytes)] + later;
    assert answers[1..] == later;
    var mem', size' := Extended(mem, size, bytes), size + |bytes|;
    ExtendedFront(mem, size, bytes, Delivered(later));
    FrontIsMagic(mem', size', Delivered(later), frames);
    if !Primed(mem) {
      assert size == 0 && Opening(answers) == |bytes|;
    }
    assert forall k :: size' <= k < |mem| ==> mem'[k] == mem[k];
  }

  lemma ExtendedFront(mem: seq<byte>, size: nat, bytes: seq<byte>, more: seq<byte>)
    requires size + |bytes| <= |mem|
    ensures Extended(mem, size, bytes)[..size + |bytes|] + more == mem[..size] + (bytes + more)
  {
    assert Extended(mem, size, bytes)[..size + |bytes|] == mem[..size] + bytes;
  }

  /** What the frame size test finds at the front. */
  lemma HeadHolds(mem: seq<byte>, size: nat, answers: seq<ReadResult>, frames: seq<Frame>)
    requires Holds(mem, size, answers, frames)
    ensures frames == [] ==> size == 0
    ensures frames != [] ==>
      var n := HEADER_SIZE + |frames[0].payload|;
      n <= MAX_FRAME_SIZE
      && FrameSize(mem[..size]) == (if size < HEADER_SIZE then 0 else n)
      && (n <= size ==> Decode(mem[..n]) == Some(frames[0]))
  {
    assert Unfolded(0);
    FrontIsMagic(mem, size, Delivered(answers), frames);
    if frames != [] {
      StreamFront(frames[0], mem[..size], Delivered(answers), Stream(frames[1..]));
      var n := HEADER_SIZE + |frames[0].payload|;
      assert n <= size ==> mem[..size][..n] == mem[..n];
    }
  }

  datatype Verdict = TooLarge | NeedMore | Corrupt | Good(n: nat, frame: Frame)

  /** What a resynchronised buffer holds. */
  function Judge(buffered: seq<byte>): Verdict {
    var n := FrameSize(buffered);
    if n > RX_STREAM_SIZE then TooLarge
    else if n == 0 || |buffered| < n then NeedMore
    else match Decode(buffered[..n])
      case Some(frame) => Good(n, frame)
      case None => Corrupt
  }

  lemma JudgeFacts(buffered: seq<byte>)
    ensures Judge(buffered).Good? ==>
      0 < Judge(buffered).n <= |buffered|
      && Decode(buffered[..Judge(buffered).n]) == Some(Judge(buffered).frame)
    ensures Judge(buffered).Corrupt? ==> buffered != []
  {}

  /** Dropped bytes, a returned frame and what is buffered are what was buffered and what was read. */
  ghost predicate Conserved(dropped: seq<byte>, frame: seq<byte>, now: seq<byte>, start: seq<byte>, read: seq<byte>) {
    dropped + frame + now == start + read
  }

  lemma Untouched(start: seq<byte>)
    ensures Conserved([], [], start, start, [])
  {}

  lemma CutFront(start: seq<byte>, n: nat)
    requires n <= |start|
    ensures Conserved([], start[..n], start[n..], start, [])
    ensures Conserved(start[..n], [], start[n..], start, [])
  {}

  lemma ShiftedIs(was: seq<byte>, now: seq<byte>, size: nat, n: nat)
    requires n <= size <= |was| == |now|
    requires forall k :: 0 <= k < size - n ==> now[k] == was[k + n]
    requires forall k :: size - n <= k < |was| ==> now[k] == was[k]
    ensures now == Shifted(was, size, n) && now[..size - n] == was[..size][n..]
  {}

  lemma Lose(dropped: seq<byte>, lost: seq<byte>, cut: seq<byte>, now: seq<byte>, before: seq<byte>,
      start: seq<byte>, read: seq<byte>)
    requires Conserved(dropped, [], before, start, read) && Conserved(lost, cut, now, before, [])
    ensures Conserved(dropped + lost, cut, now, start, read)
  {
    assert dropped + [] + before == dropped + before && before + [] == before;
    Regroup(lost, cut, now);
    Regroup(dropped, lost, cut + now);
    Regroup(dropped + lost, cut, now);
  }

  /** What one step conserves, then another. */
  lemma FollowOn(dropped: seq<byte>, lost: seq<byte>, cut: seq<byte>, now: seq<byte>, before: seq<byte>,
      start: seq<byte>, read: seq<byte>, more: seq<byte>)
    requires Conserved(dropped, [], before, start, read) && Conserved(lost, cut, now, before, more)
    ensures Conserved(dropped + lost, cut, now, start, read + more)
  {
    assert dropped + [] == dropped;
    Regroup(dropped, before, more);
    Regroup(start, read, more);
    Regroup(lost, cut, now);
    Regroup(dropped, lost, cut + now);
    Regroup(dropped + lost, cut, now);
  }

  lemma DeliveredNothing(lost: seq<byte>, cut: seq<byte>, now: seq<byte>, start: seq<byte>)
    requires Conserved(lost, cut, now, start, [])
    ensures Conserved(lost, cut, now, start, Delivered([]))
  {}

  lemma Gain(dropped: seq<byte>, held: seq<byte>, now: seq<byte>, start: seq<byte>, read: seq<byte>, more: seq<byte>)
    requires Conserved(dropped, [], held, start, read) && now == held + more
    ensures Conserved(dropped, [], now, start, read + more)
  {
    Regroup(dropped + [], held, more);
    Regroup(start, read, more);
  }

  /** Fewer bytes than the next frame has. */
  predicate Partial(size: nat, frames: seq<Frame>) {
    frames != [] ==> size < HEADER_SIZE + |frames[0].payload|
  }

  lemma Drained(mem: seq<byte>, size: nat, frames: seq<Frame>)
    requires Holds(mem, size, [], frames) && Partial(size, frames)
    ensures frames == []
  {
    assert Unfolded(0);
    assert |mem[..size] + Delivered([])| == size;
  }

  /** On a stream of frames the verdict is the next frame, or that more bytes are needed. */
  lemma JudgeHolds(mem: seq<byte>, size: nat, answers: seq<ReadResult>, frames: seq<Frame>)
    requires Holds(mem, size, answers, frames) && (size == 0 || Primed(mem))
    ensures var v := Judge(mem[..size]);
      (v.NeedMore? && size < MAX_FRAME_SIZE && Partial(size, frames))
      || (v.Good? && v.n <= size && frames != [] && v.frame == frames[0]
          && Holds(Shifted(mem, size, v.n), size - v.n, answers, frames[1..]))
  {
    HeadHolds(mem, size, answers, frames);
    if frames != [] && HEADER_SIZE + |frames[0].payload| <= size {
      var n := HEADER_SIZE + |frames[0].payload|;
      PrefixOfPrefix(mem, n, size);
      PopHolds(mem, size, answers, frames, n);
      assert Judge(mem[..size]) == Good(n, frames[0]);
    } else {
      assert Judge(mem[..size]) == NeedMore;
    }
  }

  lemma PrefixOfPrefix(mem: seq<byte>, n: nat, size: nat)
    requires n <= size <= |mem|
    ensures mem[..size][..n] == mem[..n]
  {}

  lemma NextFrame(received: seq<Frame>, left: seq<Frame>)
    requires left != []
    ensures received + [left[0]] + left[1..] == received + left
  {
    assert left == [left[0]] + left[1..];
  }

  // ---- what may be dropped ---------------------------------------------------------------------

  /**
   * No frame begins here: there is no magic word, or the header behind it announces a frame all of which is there and
   * does not decode.
   */
  predicate FutileNow(y: seq<byte>) {
    |y| >= 4 && (y[..4] != MAGIC || Judge(y).Corrupt?)
  }

  /** Mentioned where it is to be seen what Fruitless(x, i) says. */
  ghost predicate Seen(x: seq<byte>, i: nat, n: nat) { true }

  /** No frame begins at position i of x. */
  ghost predicate Fruitless(x: seq<byte>, i: nat) {
    forall n {:trigger Seen(x, i, n)} :: Seen(x, i, n) ==> i <= |x| && FutileNow(x[i..])
  }

  lemma FutileHasNoFrame(y: seq<byte>, n: nat)
    requires FutileNow(y) && n <= |y|
    ensures Decode(y[..n]).None?
  {
    var z := y[..n];
    if |z| >= HEADER_SIZE {
      assert z[..4] == y[..4];
      SameHeaderSameSize(z, y);
    }
  }

  lemma FruitlessHasNoFrame(x: seq<byte>, i: nat, n: nat)
    requires Fruitless(x, i) && i <= n <= |x|
    ensures Decode(x[i..n]).None?
  {
    assert Seen(x, i, 0);
    FutileHasNoFrame(x[i..], n - i);
    assert x[i..n] == x[i..][..n - i];
  }

  lemma JudgeMore(x: seq<byte>, more: seq<byte>)
    ensures !Judge(x).NeedMore? ==> Judge(x + more) == Judge(x)
  {
    if |x| >= HEADER_SIZE {
      SameHeaderSameSize(x, x + more);
      assert FrameSize(x) <= |x| ==> (x + more)[..FrameSize(x)] == x[..FrameSize(x)];
    }
  }

  lemma FutileMore(y: seq<byte>, more: seq<byte>)
    requires FutileNow(y)
    ensures FutileNow(y + more)
  {
    assert (y + more)[..4] == y[..4];
    JudgeMore(y, more);
  }

  /** That stays so whatever follows. */
  lemma FruitlessMore(x: seq<byte>, more: seq<byte>, i: nat)
    requires Fruitless(x, i)
    ensures Fruitless(x + more, i)
  {
    assert Seen(x, i, 0);
    assert (x + more)[i..] == x[i..] + more;
    FutileMore(x[i..], more);
  }

  lemma FruitlessBehind(a: seq<byte>, b: seq<byte>, j: nat)
    requires Fruitless(b, j)
    ensures Fruitless(a + b, |a| + j)
  {
    assert Seen(b, j, 0);
    assert (a + b)[|a| + j..] == b[j..];
  }

  /** Position i was rightly passed over when x was all there was, or it had fewer than four bytes to it. */
  ghost predicate Passed(x: seq<byte>, i: nat) {
    i + 4 > |x| || Fruitless(x, i)
  }

  ghost predicate AllPassed(x: seq<byte>, d: nat) {
    forall i | 0 <= i < d :: Passed(x, i)
  }

  lemma PassBehind(a: seq<byte>, b: seq<byte>, x: seq<byte>, j: nat)
    requires x == a + b && Passed(b, j)
    ensures Passed(x, |a| + j)
  {
    if Fruitless(b, j) {
      FruitlessBehind(a, b, j);
    }
  }

  lemma PassOn(a: seq<byte>, b: seq<byte>, x: seq<byte>, e: nat)
    requires x == a + b && AllPassed(x, |a|) && AllPassed(b, e)
    ensures AllPassed(x, |a| + e)
  {
    forall i | |a| <= i < |a| + e
      ensures Passed(x, i)
    {
      PassBehind(a, b, x, i - |a|);
    }
  }

  /** The front may go if it is not the magic word, or heads a frame that does not decode. */
  lemma PassOne(b: seq<byte>)
    requires b != [] && (|b| >= 4 ==> FutileNow(b))
    ensures AllPassed(b, 1)
  {
    assert b[0..] == b;
    assert Passed(b, 0);
  }

  lemma NotPrimed(mem: seq<byte>, size: nat)
    requires 4 <= |mem| && 0 < size <= |mem|
    ensures !Primed(mem) && size >= 4 ==> FutileNow(mem[..size])
    ensures Primed(mem) && size >= 4 ==> mem[..size][..4] == MAGIC
  {}

  /** More positions are passed over. */
  lemma DropMore(dropped: seq<byte>, now: seq<byte>, start: seq<byte>, e: nat)
    requires Conserved(dropped, [], now, start, []) && AllPassed(start, |dropped|) && AllPassed(now, e)
    ensures AllPassed(start, |dropped| + e)
  {
    assert dropped + [] + now == dropped + now && start + [] == start;
    PassOn(dropped, now, start, e);
  }

  /** The same, with a frame taken behind them. */
  lemma DropThenTake(dropped: seq<byte>, lost: seq<byte>, bytes: seq<byte>, now: seq<byte>, before: seq<byte>,
      start: seq<byte>)
    requires Conserved(dropped, [], before, start, []) && Conserved(lost, bytes, now, before, [])
    requires AllPassed(start, |dropped|) && AllPassed(before, |lost|)
    ensures Conserved(dropped + lost, bytes, now, start, []) && AllPassed(start, |dropped + lost|)
    ensures |dropped + lost| <= |start| && |bytes| <= |start|
  {
    DropMore(dropped, before, start, |lost|);
    Lose(dropped, lost, bytes, now, before, start, []);
    assert |dropped + lost + bytes + now| == |start + []|;
  }

  lemma DropAlso(dropped: seq<byte>, lost: seq<byte>, now: seq<byte>, before: seq<byte>, start: seq<byte>)
    requires Conserved(dropped, [], before, start, []) && Conserved(lost, [], now, before, [])
    requires AllPassed(start, |dropped|) && AllPassed(before, |lost|)
    ensures Conserved(dropped + lost, [], now, start, []) && AllPassed(start, |dropped + lost|)
  {
    DropMore(dropped, before, start, |lost|);
    Lose(dropped, lost, [], now, before, start, []);
  }

  /** Bytes that hold no frame to return: nothing, or the beginning of something that passes for a frame. */
  predicate WaitsNow(b: seq<byte>) {
    (Judge(b).NeedMore? || Judge(b).TooLarge?) && (|b| >= 4 ==> b[..4] == MAGIC)
  }

  ghost predicate Waits(b: seq<byte>) {
    forall n {:trigger Unfolded(n)} :: Unfolded(n) ==> WaitsNow(b)
  }

  lemma WaitsIf(mem: seq<byte>, size: nat)
    requires 4 <= |mem| && size <= |mem| && (size == 0 || Primed(mem))
    requires Judge(mem[..size]).NeedMore? || Judge(mem[..size]).TooLarge?
    ensures Waits(mem[..size])
  {
    if size > 0 {
      NotPrimed(mem, size);
    }
  }

  /** When one of these answers had arrived, t bytes were there in all. */
  ghost predicate ReadUpTo(start: nat, taken: seq<ReadResult>, t: nat) {
    exists k | 0 <= k <= |taken| :: t == start + |Delivered(taken[..k])|
  }

  /** Some read ended one to three bytes behind position i. */
  ghost predicate Cut(i: nat, start: nat, taken: seq<ReadResult>) {
    exists t | i < t < i + 4 :: ReadUpTo(start, taken, t)
  }

  /** No frame begins at position i, unless a read ended within four bytes of it. */
  ghost predicate SkippedAt(x: seq<byte>, i: nat, start: nat, taken: seq<ReadResult>) {
    Fruitless(x, i) || Cut(i, start, taken)
  }

  ghost predicate Skipped(x: seq<byte>, d: nat, start: nat, taken: seq<ReadResult>) {
    forall i | 0 <= i < d :: SkippedAt(x, i, start, taken)
  }

  /**
   * One read of frames: of x, which is all there was and all that was read, the first bytes were dropped, the next
   * ones are the frame returned, and the rest stays. Nothing dropped begins a frame, except where a read ended.
   */
  ghost predicate Served(x: seq<byte>, start: nat, taken: seq<ReadResult>, r: Outcome,
    dropped: seq<byte>, bytes: seq<byte>, now: seq<byte>)
  {
    dropped + bytes + now == x && |bytes| <= RX_STREAM_SIZE && Skipped(x, |dropped|, start, taken)
    && if r.GotFrame? then Decode(bytes) == Some(r.frame) else bytes == [] && Waits(now)
  }

  lemma CutMore(i: nat, start: nat, taken: seq<ReadResult>, more: seq<ReadResult>)
    requires Cut(i, start, taken)
    ensures Cut(i, start, taken + more)
  {
    var t :| i < t < i + 4 && ReadUpTo(start, taken, t);
    var k :| 0 <= k <= |taken| && t == start + |Delivered(taken[..k])|;
    assert (taken + more)[..k] == taken[..k];
    assert ReadUpTo(start, taken + more, t);
  }

  lemma CutAtEnd(i: nat, start: nat, taken: seq<ReadResult>)
    requires i < start + |Delivered(taken)| < i + 4
    ensures Cut(i, start, taken)
  {
    assert taken[..|taken|] == taken;
    assert ReadUpTo(start, taken, start + |Delivered(taken)|);
  }

  lemma SkipOne(x: seq<byte>, i: nat, start: nat, taken: seq<ReadResult>, one: seq<ReadResult>)
    requires SkippedAt(x, i, start, taken)
    ensures SkippedAt(x + Delivered(one), i, start, taken + one)
  {
    if Fruitless(x, i) {
      FruitlessMore(x, Delivered(one), i);
    } else {
      CutMore(i, start, taken, one);
    }
  }

  lemma PassedIsSkipped(x: seq<byte>, i: nat, start: nat, taken: seq<ReadResult>)
    requires i < |x| && Passed(x, i) && |x| == start + |Delivered(taken)|
    ensures SkippedAt(x, i, start, taken)
  {
    if !Fruitless(x, i) {
      CutAtEnd(i, start, taken);
    }
  }

  /** Positions passed over in what was there. */
  lemma SkipOn(a: seq<byte>, b: seq<byte>, x: seq<byte>, e: nat, start: nat, taken: seq<ReadResult>)
    requires x == a + b && Skipped(x, |a|, start, taken) && AllPassed(b, e) && e <= |b|
    requires |x| == start + |Delivered(taken)|
    ensures Skipped(x, |a| + e, start, taken)
  {
    forall i | |a| <= i < |a| + e
      ensures SkippedAt(x, i, start, taken)
    {
      PassBehind(a, b, x, i - |a|);
      PassedIsSkipped(x, i, start, taken);
    }
  }

  /** And then more arrived. */
  lemma SkipMore(x: seq<byte>, d: nat, start: nat, taken: seq<ReadResult>, one: seq<ReadResult>)
    requires Skipped(x, d, start, taken)
    ensures Skipped(x + Delivered(one), d, start, taken + one)
  {
    forall i | 0 <= i < d
      ensures SkippedAt(x + Delivered(one), i, start, taken + one)
    {
      SkipOne(x, i, start, taken, one);
    }
  }

  lemma SkipFurther(dropped: seq<byte>, before: seq<byte>, start: seq<byte>, lost: seq<byte>, size: nat,
      taken: seq<ReadResult>, one: seq<ReadResult>)
    requires Conserved(dropped, [], before, start, Delivered(taken)) && |start| == size
    requires Skipped(start + Delivered(taken), |dropped|, size, taken)
    requires AllPassed(before, |lost|) && |lost| <= |before|
    ensures Skipped(start + Delivered(taken + one), |dropped + lost|, size, taken + one)
  {
    assert dropped + [] + before == dropped + before;
    SkipOn(dropped, before, start + Delivered(taken), |lost|, size, taken);
    SkipMore(start + Delivered(taken), |dropped + lost|, size, taken, one);
    DeliveredAppend(taken, one);
    Regroup(start, Delivered(taken), Delivered(one));
  }

  // ---- the reader ------------------------------------------------------------------------------

  class StreamReader {
    const mtu: nat
    const rx: array<byte>
    var size: nat
    var answers: seq<ReadResult>

    /** ac_datalink_effective_mtu: how many bytes are asked of the device at a time. */
    function Capacity(): (n: nat)
      ensures 0 < n <= MAX_FRAME_SIZE
    {
      if mtu == 0 then 256 else if mtu > MAX_FRAME_SIZE then MAX_FRAME_SIZE else mtu
    }

    ghost predicate Valid()
      reads this
    {
      rx.Length == RX_STREAM_SIZE && size <= RX_STREAM_SIZE
      && forall a <- answers :: a.Data? ==> |a.bytes| <= Capacity()
    }

    ghost function Buffered(): seq<byte>
      requires size <= rx.Length
      reads this, rx
    {
      rx[..size]
    }

    ghost predicate Ready(frames: seq<Frame>)
      reads this, rx
    {
      Holds(rx[..], size, answers, frames)
    }

    /** ac_datalink_is_magic on the receive buffer: it looks at four bytes even if fewer are buffered. */
    method MagicInMemory() returns (b: bool)
      requires Valid()
      ensures b == Primed(rx[..])
    {
      b := rx[0] == MAGIC[0] && rx[1] == MAGIC[1] && rx[2] == MAGIC[2] && rx[3] == MAGIC[3];
    }

    constructor (mtu: nat, answers: seq<ReadResult>)
      requires var m := if mtu == 0 then 256 else if mtu > MAX_FRAME_SIZE then MAX_FRAME_SIZE else mtu;
        forall a <- answers :: a.Data? ==> |a.bytes| <= m
      ensures Valid() && fresh(rx) && size == 0 && this.answers == answers && this.mtu == mtu
      ensures !Primed(rx[..])
    {
      this.mtu := mtu;
      rx := new byte[RX_STREAM_SIZE](_ => 0);
      size := 0;
      this.answers := answers;
    }

    method ShiftOut(n: nat) returns (ghost removed: seq<byte>)
      requires Valid() && n <= size
      modifies this`size, rx
      ensures Valid() && size == old(size) - n
      ensures rx[..] == Shifted(old(rx[..]), old(size), n)
      ensures removed == old(Buffered())[..n] && |removed| == n
      ensures Conserved([], removed, Buffered(), old(Buffered()), [])
      ensures Conserved(removed, [], Buffered(), old(Buffered()), [])
    {
      removed := rx[..n];
      for i := 0 to size - n
        invariant size == old(size)
        invariant forall k :: 0 <= k < i ==> rx[k] == old(rx[k + n])
        invariant forall k :: i <= k < rx.Length ==> rx[k] == old(rx[k])
      {
        rx[i] := rx[i + n];
      }
      size := size - n;
      ShiftedIs(old(rx[..]), rx[..], old(size), n);
      CutFront(old(Buffered()), n);
    }

    method Append(bytes: seq<byte>)
      requires Valid() && size + |bytes| <= RX_STREAM_SIZE
      modifies this`size, rx
      ensures Valid() && size == old(size) + |bytes|
      ensures rx[..] == Extended(old(rx[..]), old(size), bytes)
      ensures Buffered() == old(Buffered()) + bytes
    {
      for i := 0 to |bytes|
        invariant size == old(size)
        invariant forall k :: 0 <= k < i ==> rx[size + k] == bytes[k]
        invariant forall k :: 0 <= k < size || size + i <= k < rx.Length ==> rx[k] == old(rx[k])
      {
        rx[size + i] := bytes[i];
      }
      size := size + |bytes|;
    }

    /** Drops buffered bytes until the memory starts with the magic word or nothing is buffered. */
    method Resynchronise() returns (ghost dropped: seq<byte>)
      requires Valid()
      modifies this`size, rx
      ensures Valid() && size <= old(size)
      ensures Conserved(dropped, [], Buffered(), old(Buffered()), [])
      ensures dropped == [] <==> (old(size) == 0 || Primed(old(rx[..])))
      ensures dropped == [] ==> rx[..] == old(rx[..]) && size == old(size)
      ensures size == 0 || Primed(rx[..])
      ensures AllPassed(old(Buffered()), |dropped|)
    {
      dropped := [];
      Untouched(Buffered());
      while size > 0
        invariant Valid() && size <= old(size)
        invariant Conserved(dropped, [], Buffered(), old(Buffered()), [])
        invariant AllPassed(old(Buffered()), |dropped|)
        invariant dropped == [] ==> rx[..] == old(rx[..]) && size == old(size)
        invariant dropped != [] ==> old(size) > 0 && !Primed(old(rx[..]))
        decreases size
      {
        var magic := MagicInMemory();
        if magic {
          break;
        }
        ghost var before := Buffered();
        NotPrimed(rx[..], size);
        PassOne(before);
        ghost var b := ShiftOut(1);
        DropAlso(dropped, b, Buffered(), before, old(Buffered()));
        dropped := dropped + b;
      }
    }

    // ---- ac_datalink_read_frame ------------------------------------------------------------------

    /** Resynchronises and judges what then stands at the front. */
    method LookAhead(ghost frames: seq<Frame>) returns (v: Verdict, ghost skipped: seq<byte>)
      requires Valid()
      modifies this`size, rx
      ensures Valid() && size <= old(size)
      ensures Conserved(skipped, [], Buffered(), old(Buffered()), []) && AllPassed(old(Buffered()), |skipped|)
      ensures skipped == [] <==> (old(size) == 0 || Primed(old(rx[..])))
      ensures skipped == [] ==> rx[..] == old(rx[..]) && size == old(size)
      ensures v.Good? ==> 0 < v.n <= size && Decode(Buffered()[..v.n]) == Some(v.frame)
      ensures v.Corrupt? ==> size > 0 && AllPassed(Buffered(), 1)
      ensures v.NeedMore? || v.TooLarge? ==> Waits(Buffered())
      ensures size == 0 ==> v.NeedMore?
      ensures old(Ready(frames)) ==>
        skipped == []
        && ((v.NeedMore? && size < MAX_FRAME_SIZE && Partial(size, frames))
            || (v.Good? && frames != [] && v.frame == frames[0]
                && Holds(Shifted(rx[..], size, v.n), size - v.n, answers, frames[1..])))
    {
      if old(Ready(frames)) {
        HeldIsPrimed(rx[..], size, answers, frames);
      }
      skipped := Resynchronise();
      if old(Ready(frames)) {
        JudgeHolds(rx[..], size, answers, frames);
      }
      v := Judge(rx[..size]);
      JudgeFacts(Buffered());
      if v.NeedMore? || v.TooLarge? {
        WaitsIf(rx[..], size);
      } else if v.Corrupt? {
        PassOne(Buffered());
      }
    }

    /** Then returns the frame that stands there, or drops one byte if what stands there is corrupt. */
    method TakeTurn(ghost frames: seq<Frame>) returns (v: Verdict, ghost lost: seq<byte>, ghost bytes: seq<byte>)
      requires Valid()
      modifies this`size, rx
      ensures Valid() && size <= old(size) && (v.Corrupt? ==> size < old(size) && lost != [])
      ensures Conserved(lost, bytes, Buffered(), old(Buffered()), []) && AllPassed(old(Buffered()), |lost|)
      ensures if v.Good? then Decode(bytes) == Some(v.frame) else bytes == []
      ensures old(size) > 0 && !Primed(old(rx[..])) ==> lost != []
      ensures old(size) == 0 ==> v.NeedMore? && rx[..] == old(rx[..])
      ensures v.NeedMore? || v.TooLarge? ==> Waits(Buffered())
      ensures old(Ready(frames)) ==>
        lost == [] && !v.TooLarge? && !v.Corrupt?
        && (v.Good? ==> frames != [] && v.frame == frames[0] && Ready(frames[1..]))
        && (v.NeedMore? ==> Ready(frames) && size < MAX_FRAME_SIZE && Partial(size, frames))
    {
      bytes := [];
      v, lost := LookAhead(frames);
      ghost var before := Buffered();
      if v.Good? {
        bytes := ShiftOut(v.n);
        Lose(lost, [], bytes, Buffered(), before, old(Buffered()), []);
        assert lost + [] == lost;
      } else if v.Corrupt? {
        ghost var b := ShiftOut(1);
        DropAlso(lost, b, Buffered(), before, old(Buffered()));
        lost := lost + b;
      }
    }

    /**
     * The part of a read that needs no device: resynchronise, then return a frame, give up on one that
     * is too large, or ask for more bytes; a frame that does not decode costs one byte.
     */
    method TakeFrame(ghost frames: seq<Frame>) returns (v: Verdict, ghost dropped: seq<byte>, ghost bytes: seq<byte>)
      requires Valid()
      modifies this`size, rx
      ensures Valid() && !v.Corrupt? && size <= old(size)
      ensures Conserved(dropped, bytes, Buffered(), old(Buffered()), [])
      ensures if v.Good? then Decode(bytes) == Some(v.frame) else bytes == []
      ensures old(size) > 0 && !Primed(old(rx[..])) ==> dropped != []
      ensures old(size) == 0 ==> v.NeedMore? && rx[..] == old(rx[..])
      ensures AllPassed(old(Buffered()), |dropped|) && |dropped| <= old(size) && |bytes| <= old(size)
      ensures v.NeedMore? || v.TooLarge? ==> Waits(Buffered())
      ensures old(Ready(frames)) ==>
        dropped == [] && !v.TooLarge?
        && (v.Good? ==> frames != [] && v.frame == frames[0] && Ready(frames[1..]))
        && (v.NeedMore? ==> Ready(frames) && size < MAX_FRAME_SIZE && Partial(size, frames))
    {
      Untouched(Buffered());
      v, dropped, bytes := TakeTurn(frames);
      DropThenTake([], dropped, bytes, Buffered(), old(Buffered()), old(Buffered()));
      assert [] + dropped == dropped;
      while v.Corrupt?
        invariant Valid() && size <= old(size) && (if v.Good? then Decode(bytes) == Some(v.frame) else bytes == [])
        invariant Conserved(dropped, bytes, Buffered(), old(Buffered()), [])
        invariant AllPassed(old(Buffered()), |dropped|) && |dropped| <= old(size) && |bytes| <= old(size)
        invariant v.NeedMore? || v.TooLarge? ==> Waits(Buffered())
        invariant v.Corrupt? ==> dropped != [] && old(size) > 0 && !old(Ready(frames))
        invariant old(size) > 0 && !Primed(old(rx[..])) ==> dropped != []
        invariant old(size) == 0 ==> v.NeedMore? && rx[..] == old(rx[..])
        invariant old(Ready(frames)) ==>
          dropped == [] && !v.TooLarge?
          && (v.Good? ==> frames != [] && v.frame == frames[0] && Ready(frames[1..]))
          && (v.NeedMore? ==> Ready(frames) && size < MAX_FRAME_SIZE && Partial(size, frames))
        decreases size, v.Corrupt?
      {
        ghost var before := Buffered();
        ghost var lost;
        v, lost, bytes := TakeTurn(frames);
        DropThenTake(dropped, lost, bytes, Buffered(), before, old(Buffered()));
        dropped := dropped + lost;
      }
    }

    /** Asks the device for more bytes, if the buffer has room for as many as are asked for. */
    method Refill(ghost frames: seq<Frame>) returns (r: Refilled, ghost taken: seq<ReadResult>)
      requires Valid()
      modifies this`size, this`answers, rx
      ensures Valid() && taken + answers == old(answers)
      ensures Buffered() == old(Buffered()) + Delivered(taken)
      ensures r.NoRoom? <==> old(size) + Capacity() > RX_STREAM_SIZE
      ensures if r.More? then |answers| < |old(answers)| else Buffered() == old(Buffered())
      ensures r.Failed? ==> taken != []
      ensures r.Nothing? ==> taken != [] || answers == []
      ensures old(size) == 0 && Delivers(old(answers)) ==>
        r.More? && rx[..] == Extended(old(rx[..]), 0, old(answers)[0].bytes) && size == |old(answers)[0].bytes|
      ensures r.Nothing? ==> size == old(size)
      ensures old(size) == 0 && Idles(old(answers)) ==>
        !r.More? && !r.NoRoom? && answers == old(answers)[1..] && size == 0 && rx[..] == old(rx[..])
      ensures Steady(old(answers)) ==> Steady(answers) && !r.Failed? && (r.Nothing? ==> answers == [])
      ensures old(Ready(frames)) ==> Ready(frames)
    {
      taken := [];
      if size + Capacity() > RX_STREAM_SIZE {
        Regroup([], [], answers);
        return NoRoom, [];
      }
      if answers == [] {
        return Nothing, [];
      }
      var answer := answers[0];
      taken := [answer];
      assert taken + answers[1..] == answers && taken[1..] == [];
      if answer.Data? && answer.bytes != [] {
        if Ready(frames) {
          RefillHolds(rx[..], size, answer.bytes, answers[1..], frames);
        }
        answers := answers[1..];
        Append(answer.bytes);
        assert Delivered(taken) == answer.bytes;
        return More, taken;
      }
      if Ready(frames) {
        IdleHolds(rx[..], size, answers, frames);
      }
      answers := answers[1..];
      assert Delivered(taken) == [];
      r := if answer.Error? then Failed(answer.code) else Nothing;
    }

    /** One turn of the loop: a frame is returned, the read ends, or the device was asked for more and answered. */
    method ReadTurn(ghost frames: seq<Frame>)
      returns (r: Option<Outcome>, ghost lost: seq<byte>, ghost cut: seq<byte>, ghost taken: seq<ReadResult>)
      requires Valid()
      modifies this`size, this`answers, rx
      ensures Valid() && taken + answers == old(answers) && (r.None? ==> |answers| < |old(answers)|)
      ensures Conserved(lost, cut, Buffered(), old(Buffered()), Delivered(taken))
      ensures if r.Some? && r.value.GotFrame? then Decode(cut) == Some(r.value.frame) else cut == []
      ensures Slips(old(rx[..]), old(size), old(answers)) ==> lost != [] || (r.None? && Slips(rx[..], size, answers))
      ensures AllPassed(old(Buffered()), |lost|) && |lost| <= old(size) && |cut| <= old(size)
      ensures r.Some? && !r.value.GotFrame? ==> Waits(Buffered())
      ensures r.Some? && r.value.DeviceError? ==> taken != []
      ensures old(size) == 0 && Idles(old(answers)) ==>
        r.Some? && answers == old(answers)[1..] && size == 0 && rx[..] == old(rx[..])
      ensures r.Some? && r.value.NoData? ==> taken != [] || answers == []
      ensures Steady(old(answers)) ==> Steady(answers)
      ensures Steady(old(answers)) && r.Some? ==> !r.value.DeviceError? && (r.value.NoData? ==> answers == [])
      ensures old(Ready(frames)) ==> lost == [] && r != Some(Refused)
      ensures old(Ready(frames)) ==>
        if r.Some? && r.value.GotFrame? then frames != [] && r.value.frame == frames[0] && Ready(frames[1..])
        else Ready(frames)
      ensures r == Some(NoData) && old(Ready(frames)) && answers == [] ==> frames == []
    {
      var v;
      v, lost, cut := TakeFrame(frames);
      taken := [];
      DeliveredNothing(lost, cut, Buffered(), old(Buffered()));
      assert taken + answers == old(answers);
      if v.Good? {
        return Some(GotFrame(v.frame)), lost, cut, taken;
      }
      if v.TooLarge? {
        return Some(Refused), lost, cut, taken;
      }
      ghost var held := Buffered();
      var more;
      more, taken := Refill(frames);
      Gain(lost, held, Buffered(), old(Buffered()), [], Delivered(taken));
      assert [] + Delivered(taken) == Delivered(taken);
      if answers == [] && old(Ready(frames)) && more.Nothing? {
        Drained(rx[..], size, frames);
      }
      match more {
        case NoRoom => r := Some(Refused);
        case Nothing => r := Some(NoData);
        case Failed(code) => r := Some(DeviceError(code));
        case More => r := None;
      }
    }

    /**
     * ac_datalink_read_frame. Whatever the device answers, the bytes dropped, the bytes of the returned
     * frame and what stays buffered are what was buffered followed by what was read. On a stream of
     * frames nothing is dropped, no read is refused, and the frame returned is the next one. Bytes are
     * lost, on the other hand, whenever the magic test slips.
     */
    method ReadFrame(ghost frames: seq<Frame>)
      returns (r: Outcome, ghost dropped: seq<byte>, ghost bytes: seq<byte>, ghost taken: seq<ReadResult>)
      requires Valid()
      modifies this`size, this`answers, rx
      ensures Valid() && taken + answers == old(answers)
      ensures Conserved(dropped, bytes, Buffered(), old(Buffered()), Delivered(taken))
      ensures if r.GotFrame? then Decode(bytes) == Some(r.frame) else bytes == []
      ensures Served(old(Buffered()) + Delivered(taken), old(size), taken, r, dropped, bytes, Buffered())
      ensures Slips(old(rx[..]), old(size), old(answers)) ==> dropped != []
      ensures r.DeviceError? ==> taken != []
      ensures old(size) == 0 && Idles(old(answers)) ==>
        answers == old(answers)[1..] && size == 0 && rx[..] == old(rx[..])
      ensures r.NoData? ==> taken != [] || answers == []
      ensures Steady(old(answers)) ==> Steady(answers) && !r.DeviceError? && (r.NoData? ==> answers == [])
      ensures old(Ready(frames)) ==>
        dropped == [] && !r.Refused?
        && (if r.GotFrame? then frames != [] && r.frame == frames[0] && Ready(frames[1..]) else Ready(frames))
      ensures r.NoData? && old(Ready(frames)) && answers == [] ==> frames == []
    {
      dropped, bytes, taken := [], [], [];
      Untouched(Buffered());
      while true
        invariant Valid() && taken + answers == old(answers)
        invariant Conserved(dropped, [], Buffered(), old(Buffered()), Delivered(taken))
        invariant Skipped(old(Buffered()) + Delivered(taken), |dropped|, old(size), taken)
        invariant Slips(old(rx[..]), old(size), old(answers)) && dropped == [] ==> Slips(rx[..], size, answers)
        invariant old(Ready(frames)) ==> dropped == [] && Ready(frames)
        invariant Steady(old(answers)) ==> Steady(answers)
        invariant old(size) == 0 && Idles(old(answers)) ==>
          answers == old(answers) && size == 0 && rx[..] == old(rx[..])
        decreases |answers|
      {
        ghost var before := Buffered();
        var done, lost, cut, one := ReadTurn(frames);
        SkipFurther(dropped, before, old(Buffered()), lost, old(size), taken, one);
        FollowOn(dropped, lost, cut, Buffered(), before, old(Buffered()), Delivered(taken), Delivered(one));
        DeliveredAppend(taken, one);
        Regroup(taken, one, answers);
        bytes, dropped, taken := cut, dropped + lost, taken + one;
        if done.Some? {
          return done.value, dropped, bytes, taken;
        }
      }
    }

    /** Successive calls of ac_datalink_read_frame until the device has no more answers. */
    method ReadAll(ghost frames: seq<Frame>) returns (received: seq<Frame>)
      requires Valid() && Ready(frames)
      modifies this`size, this`answers, rx
      ensures Valid() && received == frames
    {
      received := [];
      ghost var left := frames;
      while true
        invariant Valid() && Ready(left) && received + left == frames
        decreases |left| + |answers|
      {
        var r, dropped, bytes, taken := ReadFrame(left);
        if r.GotFrame? {
          NextFrame(received, left);
          received := received + [r.frame];
          left := left[1..];
        } else if r.NoData? && answers == [] {
          assert received + [] == received;
          return;
        }
      }
    }
  }
}
