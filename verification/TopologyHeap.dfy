/** Memory of the topology parser: blocks that are live at most once, and arrays that grow by doubling. */
module TopologyHeap {
  import opened Wrappers

  /** How many references to block b an optional pointer makes: one or none. */
  function Refers(p: Option<nat>, b: nat): nat {
    if p == Some(b) then 1 else 0
  }

  /** A reference to one block was given up for a reference to another; the other blocks are as they were. */
  ghost predicate Moved(before: multiset<nat>, now: multiset<nat>, from: Option<nat>, to: Option<nat>) {
    forall b: nat :: now[b] + Refers(from, b) == before[b] + Refers(to, b)
  }

  /** The live blocks are those of the others, and this one. */
  ghost predicate Held(live: multiset<nat>, rest: multiset<nat>, p: Option<nat>) {
    forall b: nat :: live[b] == rest[b] + Refers(p, b)
  }

  /** The live blocks without this one. */
  ghost function Without(live: multiset<nat>, p: Option<nat>): (rest: multiset<nat>)
    requires IsLive(live, p)
    ensures Held(live, rest, p)
  {
    if p.None? then live else live[p.value := live[p.value] - 1]
  }

  predicate IsLive(live: multiset<nat>, p: Option<nat>) {
    p.Some? ==> live[p.value] > 0
  }

  class Heap {
    var live: multiset<nat>
    var next: nat
    var outcomes: seq<bool>

    /** No block is live twice. */
    ghost predicate Valid()
      reads this
    {
      forall b: nat :: live[b] <= if b < next then 1 else 0
    }

    constructor (outcomes: seq<bool>)
      ensures Valid() && live == multiset{} && this.outcomes == outcomes
    {
      this.live, this.next, this.outcomes := multiset{}, 0, outcomes;
    }

    method Alloc() returns (p: Option<nat>)
      requires Valid()
      modifies this
      ensures Valid() && Moved(old(live), live, None, p)
      ensures old(outcomes) == [] ==> p.Some? && outcomes == []
    {
      if outcomes != [] && !outcomes[0] {
        outcomes := outcomes[1..];
        return None;
      }
      outcomes := if outcomes == [] then [] else outcomes[1..];
      p := Some(next);
      live := live[next := 1];
      next := next + 1;
    }

    /** ac_parser_free: only a live block can be freed, so none is freed twice; a null pointer is passed over. */
    method Free(p: Option<nat>)
      requires Valid() && IsLive(live, p)
      modifies this
      ensures Valid() && Moved(old(live), live, p, None) && outcomes == old(outcomes)
    {
      if p.Some? {
        live := live[p.value := 0];
      }
    }
  }

  /** An array with its used part and its block, if it has one. */
  datatype List<T> = List(items: seq<T>, capacity: nat, block: Option<nat>)

  /** The array has a block exactly if it has items, which fit. */
  predicate Filled<T>(l: List<T>) {
    |l.items| <= l.capacity && (l.block.Some? <==> l.items != []) && (l.capacity > 0 <==> l.items != [])
  }

  /** ac_parser_reserve: the items move to a larger block and the old block is freed, or nothing changes; rest
      are the blocks that others own. */
  method Reserve<T>(heap: Heap, l: List<T>, needed: nat, ghost rest: multiset<nat>) returns (ok: bool, r: List<T>)
    requires heap.Valid() && Held(heap.live, rest, l.block)
    modifies heap
    ensures heap.Valid() && Held(heap.live, rest, r.block)
    ensures r.items == l.items && l.capacity <= r.capacity
    ensures if ok then needed <= r.capacity else r == l
    ensures needed <= l.capacity ==> ok && r == l
    ensures r.capacity == l.capacity || r.capacity < 2 * needed || r.capacity == 8
    ensures r == l || r.block.Some?
    ensures old(heap.outcomes) == [] ==> ok && heap.outcomes == []
  {
    if needed <= l.capacity {
      return true, l;
    }
    var capacity := if l.capacity == 0 then 8 else l.capacity;
    while capacity < needed
      invariant 0 < capacity && l.capacity <= capacity
      invariant capacity <= l.capacity || capacity < 2 * needed || capacity == 8
    {
      capacity := capacity * 2;
    }
    var block := heap.Alloc();
    if block.None? {
      return false, l;
    }
    heap.Free(l.block);
    return true, List(l.items, capacity, block);
  }

  method Append<T>(heap: Heap, l: List<T>, item: T, ghost rest: multiset<nat>) returns (ok: bool, r: List<T>)
    requires heap.Valid() && Held(heap.live, rest, l.block)
    modifies heap
    ensures heap.Valid() && Held(heap.live, rest, r.block)
    ensures r.items == l.items + if ok then [item] else []
    ensures if ok then |r.items| <= r.capacity else r == l
    ensures Filled(l) ==> Filled(r)
    ensures old(heap.outcomes) == [] ==> ok && heap.outcomes == []
  {
    ok, r := Reserve(heap, l, |l.items| + 1, rest);
    if ok {
      r := r.(items := r.items + [item]);
    }
  }
}
