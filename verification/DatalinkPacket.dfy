/** How a packet is cut into fragments, and how fragments written at their offsets give it back. */
module DatalinkPacket {
  import opened Bytes
  import opened DatalinkFrame

  const MAX_PACKET_SIZE := 4096

  predicate IsPacket(data: seq<byte>) {
    |data| <= MAX_PACKET_SIZE
  }

  /** The fragment capacity left by the header in an effective MTU. */
  type Capacity = n: int | 0 < n <= MAX_FRAME_SIZE - HEADER_SIZE witness 1

  function FragmentCount(size: nat, cap: Capacity): (n: nat)
    requires size <= MAX_PACKET_SIZE
    ensures 1 <= n <= MAX_PACKET_SIZE
  {
    var n := (size + cap - 1) / cap;
    CeilingDivision(size, cap, n);
    if n == 0 then 1 else n
  }

  lemma MulMono(x: int, y: int, c: nat)
    ensures x <= y ==> x * c <= y * c
  {}

  lemma CeilingDivision(size: nat, cap: Capacity, n: int)
    requires n == (size + cap - 1) / cap
    ensures 0 <= n <= size && size <= n * cap && (n >= 1 ==> (n - 1) * cap < size)
  {
    assert n * cap <= size + cap - 1 < n * cap + cap;
    assert (n - 1) * cap == n * cap - cap;
    assert (size + 1) * cap == size * cap + cap;
    MulMono(1, cap, size);
    MulMono(size + 1, n, cap);
    MulMono(n, -1, cap);
  }

  /** Just enough fragments: the last one is needed, and together they hold the packet. */
  lemma CountIsExact(size: nat, cap: Capacity)
    requires size <= MAX_PACKET_SIZE
    ensures var n := FragmentCount(size, cap); size <= n * cap && (n > 1 ==> (n - 1) * cap < size)
  {
    CeilingDivision(size, cap, (size + cap - 1) / cap);
  }

  /** Where fragment i starts and ends. */
  function Offset(size: nat, cap: Capacity, i: nat): (r: nat)
    ensures r <= size && r <= i * cap && (i * cap <= size ==> r == i * cap)
  {
    if i * cap < size then i * cap else size
  }

  predicate IsData(f: Frame) { f.flags % 2 == 1 }

  predicate IsAck(f: Frame) { f.flags / FLAG_ACK % 2 == 1 }

  predicate IsNak(f: Frame) { f.flags / FLAG_NAK % 2 == 1 }

  /** The i-th frame ac_datalink_send_packet builds for a packet with link sequence q; it fits the MTU. */
  function Fragment(q: u32, data: seq<byte>, cap: Capacity, i: nat): (f: Frame)
    requires IsPacket(data) && i < FragmentCount(|data|, cap)
    ensures IsData(f) && !IsAck(f) && !IsNak(f) && |f.payload| <= cap && f.linkSequence == q
  {
    var count := FragmentCount(|data|, cap);
    var from, to := Offset(|data|, cap, i), Offset(|data|, cap, i + 1);
    OffsetsGrow(|data|, cap, i);
    Frame(if i + 1 == count then FLAG_DATA + FLAG_END else FLAG_DATA, q, |data|, from, i, count, data[from..to])
  }

  lemma OffsetsGrow(size: nat, cap: Capacity, i: nat)
    ensures Offset(size, cap, i) <= Offset(size, cap, i + 1) <= Offset(size, cap, i) + cap
  {
    assert (i + 1) * cap == i * cap + cap;
  }

  /** Within the packet, a fragment starts at a multiple of the capacity and only the last may be short. */
  lemma FragmentPlace(data: seq<byte>, cap: Capacity, i: nat)
    requires IsPacket(data) && i < FragmentCount(|data|, cap)
    ensures Offset(|data|, cap, i) == i * cap && Offset(|data|, cap, 0) == 0
    ensures Offset(|data|, cap, FragmentCount(|data|, cap)) == |data|
    ensures i > 0 ==> Offset(|data|, cap, i) > 0
  {
    var n := FragmentCount(|data|, cap);
    CountIsExact(|data|, cap);
    MulMono(i, n - 1, cap);
    MulMono(1, i, cap);
  }

  // ---- tiling ----------------------------------------------------------------------------------

  /** The fragments of a packet in order, up to the n-th. */
  function Fragments(q: u32, data: seq<byte>, cap: Capacity, n: nat): (r: seq<Frame>)
    requires IsPacket(data) && n <= FragmentCount(|data|, cap)
    ensures |r| == n && forall i :: 0 <= i < n ==> r[i] == Fragment(q, data, cap, i)
  {
    if n == 0 then [] else Fragments(q, data, cap, n - 1) + [Fragment(q, data, cap, n - 1)]
  }

  /** Payloads side by side. */
  function Payloads(frames: seq<Frame>): seq<byte> {
    if frames == [] then [] else Payloads(frames[..|frames| - 1]) + frames[|frames| - 1].payload
  }

  lemma PayloadsSnoc(frames: seq<Frame>, f: Frame)
    ensures Payloads(frames + [f]) == Payloads(frames) + f.payload
  {
    assert (frames + [f])[..|frames|] == frames;
  }

  lemma Cut(data: seq<byte>, from: nat, to: nat)
    requires from <= to <= |data|
    ensures data[..to] == data[..from] + data[from..to]
  {}

  lemma {:induction false} FragmentsTile(q: u32, data: seq<byte>, cap: Capacity, n: nat)
    requires IsPacket(data) && n <= FragmentCount(|data|, cap)
    ensures Payloads(Fragments(q, data, cap, n)) == data[..Offset(|data|, cap, n)]
  {
    if n > 0 {
      FragmentsTile(q, data, cap, n - 1);
      OffsetsGrow(|data|, cap, n - 1);
      PayloadsSnoc(Fragments(q, data, cap, n - 1), Fragment(q, data, cap, n - 1));
      Cut(data, Offset(|data|, cap, n - 1), Offset(|data|, cap, n));
    } else {
      assert data[..Offset(|data|, cap, 0)] == [];
    }
  }

  lemma LastOffset(size: nat, cap: Capacity)
    requires size <= MAX_PACKET_SIZE
    ensures Offset(size, cap, FragmentCount(size, cap)) == size
  {
    CountIsExact(size, cap);
  }

  /** The fragments of a packet tile it without gap or overlap. */
  lemma PacketTiled(q: u32, data: seq<byte>, cap: Capacity)
    requires IsPacket(data)
    ensures Payloads(Fragments(q, data, cap, FragmentCount(|data|, cap))) == data
  {
    FragmentsTile(q, data, cap, FragmentCount(|data|, cap));
    LastOffset(|data|, cap);
    assert data[..|data|] == data;
  }

  // ---- reassembly ------------------------------------------------------------------------------

  /** memcpy of a fragment's payload to its offset. */
  function Store(buffer: seq<byte>, f: Frame): (r: seq<byte>)
    requires f.fragmentOffset + |f.payload| <= |buffer|
    ensures |r| == |buffer|
  {
    buffer[..f.fragmentOffset] + f.payload + buffer[f.fragmentOffset + |f.payload|..]
  }

  /** Storing fragment n behind the first n fragments completes the packet up to the next offset. */
  lemma StoreNext(buffer: seq<byte>, q: u32, data: seq<byte>, cap: Capacity, n: nat)
    requires IsPacket(data) && n < FragmentCount(|data|, cap) && |data| <= |buffer|
    requires buffer[..Offset(|data|, cap, n)] == data[..Offset(|data|, cap, n)]
    ensures var f := Fragment(q, data, cap, n);
      f.fragmentOffset + |f.payload| <= |buffer|
      && Store(buffer, f)[..Offset(|data|, cap, n + 1)] == data[..Offset(|data|, cap, n + 1)]
  {
    OffsetsGrow(|data|, cap, n);
    var from, to := Offset(|data|, cap, n), Offset(|data|, cap, n + 1);
    var f := Fragment(q, data, cap, n);
    assert Store(buffer, f)[..to] == buffer[..from] + data[from..to];
    Cut(data, from, to);
  }
}
