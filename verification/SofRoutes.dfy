/** The component ids on either side of a component, found through chains of virtual widgets. */
module SofRoutes {
  import opened Bytes

  const MAX_ROUTE_IDS := 8

  /** Names are compared for equality only; 0 is the empty name. */
  type Name = nat

  /** A buffer, or a widget without a component type, is virtual: the search passes through it. */
  datatype Widget = Widget(name: Name, pipelineId: u32, isBuffer: bool, hasType: bool, isScheduler: bool)

  datatype Route = Route(source: Name, sink: Name)

  datatype Topology = Topology(widgets: seq<Widget>, routes: seq<Route>)

  predicate IsVirtual(t: Topology, v: nat)
    requires v < |t.widgets|
  {
    t.widgets[v].isBuffer || !t.widgets[v].hasType
  }

  /** ac_widget_index_by_name, from index i on; |widgets| if there is none. */
  function FirstNamed(widgets: seq<Widget>, name: Name, i: nat): (r: nat)
    requires i <= |widgets|
    ensures i <= r <= |widgets| && (forall k | i <= k < r :: widgets[k].name != name)
    ensures r < |widgets| ==> widgets[r].name == name
    decreases |widgets| - i
  {
    if i == |widgets| || widgets[i].name == name then i else FirstNamed(widgets, name, i + 1)
  }

  /** The loop over all widgets. */
  method WidgetIndexByName(t: Topology, name: Name) returns (index: nat)
    ensures index == FirstNamed(t.widgets, name, 0)
  {
    for i := 0 to |t.widgets|
      invariant FirstNamed(t.widgets, name, 0) == FirstNamed(t.widgets, name, i)
    {
      if t.widgets[i].name == name {
        return i;
      }
    }
    index := |t.widgets|;
  }

  // ---- the graph searched ----------------------------------------------------------------------

  /** A search in one pipeline, towards the sources or towards the sinks. */
  datatype Search = Search(t: Topology, pipelineId: u32, compIds: seq<u16>, sourceSide: bool)

  predicate SearchOk(s: Search) {
    |s.compIds| == |s.t.widgets|
  }

  function Near(s: Search, r: Route): Name {
    if s.sourceSide then r.sink else r.source
  }

  function Far(s: Search, r: Route): Name {
    if s.sourceSide then r.source else r.sink
  }

  /** The route leads from the named widget to widget v of the pipeline. */
  predicate Leads(s: Search, name: Name, r: Route, v: nat) {
    && Near(s, r) == name && Far(s, r) != 0
    && v == FirstNamed(s.t.widgets, Far(s, r), 0) < |s.t.widgets|
    && s.t.widgets[v].pipelineId == s.pipelineId
  }

  ghost predicate Adjacent(s: Search, name: Name, v: nat) {
    exists k :: 0 <= k < |s.t.routes| && Leads(s, name, s.t.routes[k], v)
  }

  /** Widgets that follow one another from the named one on, all but perhaps the last virtual. */
  ghost predicate Chain(s: Search, name: Name, p: seq<nat>)
    decreases |p|
  {
    p == [] || (
      && Adjacent(s, name, p[0]) && p[0] < |s.t.widgets|
      && (|p| > 1 ==> IsVirtual(s.t, p[0]) && Chain(s, s.t.widgets[p[0]].name, p[1..])))
  }

  /** A real component at the end of a chain. */
  ghost predicate Reaches(s: Search, name: Name, v: nat) {
    v < |s.t.widgets| && !IsVirtual(s.t, v) && exists p :: |p| > 0 && p[|p| - 1] == v && Chain(s, name, p)
  }

  /** A chain of virtual widgets only. */
  ghost predicate VirtualChain(s: Search, name: Name, p: seq<nat>) {
    Chain(s, name, p) && (p != [] ==> p[|p| - 1] < |s.t.widgets| && IsVirtual(s.t, p[|p| - 1]))
  }

  /** The non-zero ids of the real components reached. */
  ghost function Ids(s: Search, name: Name): (r: set<u16>)
    requires SearchOk(s)
  {
    set v | 0 <= v < |s.t.widgets| && Reaches(s, name, v) && s.compIds[v] != 0 :: s.compIds[v]
  }

  /** What one route adds. */
  ghost function RouteIds(s: Search, name: Name, r: Route): set<u16>
    requires SearchOk(s)
  {
    var v := FirstNamed(s.t.widgets, Far(s, r), 0);
    if !Leads(s, name, r, v) then {}
    else if IsVirtual(s.t, v) then Ids(s, s.t.widgets[v].name)
    else if s.compIds[v] != 0 then {s.compIds[v]} else {}
  }

  ghost function IdsUpTo(s: Search, name: Name, n: nat): set<u16>
    requires SearchOk(s) && n <= |s.t.routes|
  {
    if n == 0 then {} else IdsUpTo(s, name, n - 1) + RouteIds(s, name, s.t.routes[n - 1])
  }

  lemma ReachesNext(s: Search, name: Name, r: Route, v: nat, w: nat)
    requires r in s.t.routes && Leads(s, name, r, v)
    requires if IsVirtual(s.t, v) then Reaches(s, s.t.widgets[v].name, w) else w == v
    ensures Reaches(s, name, w)
  {
    var k :| 0 <= k < |s.t.routes| && s.t.routes[k] == r;
    if IsVirtual(s.t, v) {
      var p :| |p| > 0 && p[|p| - 1] == w && Chain(s, s.t.widgets[v].name, p);
      assert ([v] + p)[1..] == p;
      assert Chain(s, name, [v] + p);
    } else {
      assert Chain(s, name, [v]);
    }
  }

  lemma ReachesFirst(s: Search, name: Name, w: nat) returns (k: nat, v: nat)
    requires Reaches(s, name, w)
    ensures k < |s.t.routes| && Leads(s, name, s.t.routes[k], v)
    ensures if IsVirtual(s.t, v) then Reaches(s, s.t.widgets[v].name, w) else w == v
  {
    var p :| |p| > 0 && p[|p| - 1] == w && Chain(s, name, p);
    v := p[0];
    k :| 0 <= k < |s.t.routes| && Leads(s, name, s.t.routes[k], v);
    if |p| > 1 {
      assert p[1..][|p| - 2] == w;
    }
  }

  lemma RouteInIds(s: Search, name: Name, k: nat)
    requires SearchOk(s) && k < |s.t.routes|
    ensures RouteIds(s, name, s.t.routes[k]) <= Ids(s, name)
  {
    var r := s.t.routes[k];
    var v := FirstNamed(s.t.widgets, Far(s, r), 0);
    if Leads(s, name, r, v) {
      forall w | 0 <= w < |s.t.widgets|
        ensures (if IsVirtual(s.t, v) then Reaches(s, s.t.widgets[v].name, w) else w == v) ==> Reaches(s, name, w)
      {
        if if IsVirtual(s.t, v) then Reaches(s, s.t.widgets[v].name, w) else w == v {
          ReachesNext(s, name, r, v, w);
        }
      }
    }
  }

  lemma {:induction false} UpToWithin(s: Search, name: Name, n: nat, bound: set<u16>)
    requires SearchOk(s) && n <= |s.t.routes|
    requires forall k | 0 <= k < n :: RouteIds(s, name, s.t.routes[k]) <= bound
    ensures IdsUpTo(s, name, n) <= bound
  {
    if n > 0 {
      UpToWithin(s, name, n - 1, bound);
    }
  }

  lemma {:induction false} RouteInUpTo(s: Search, name: Name, k: nat, n: nat)
    requires SearchOk(s) && k < n <= |s.t.routes|
    ensures RouteIds(s, name, s.t.routes[k]) <= IdsUpTo(s, name, n)
  {
    if k < n - 1 {
      RouteInUpTo(s, name, k, n - 1);
    }
  }

  /** The routes together add exactly the ids reached. */
  lemma AllRoutes(s: Search, name: Name)
    requires SearchOk(s)
    ensures IdsUpTo(s, name, |s.t.routes|) == Ids(s, name)
  {
    forall k | 0 <= k < |s.t.routes|
      ensures RouteIds(s, name, s.t.routes[k]) <= Ids(s, name)
    {
      RouteInIds(s, name, k);
    }
    UpToWithin(s, name, |s.t.routes|, Ids(s, name));
    forall id | id in Ids(s, name)
      ensures id in IdsUpTo(s, name, |s.t.routes|)
    {
      var w :| 0 <= w < |s.t.widgets| && Reaches(s, name, w) && s.compIds[w] != 0 && s.compIds[w] == id;
      var k, v := ReachesFirst(s, name, w);
      assert id in RouteIds(s, name, s.t.routes[k]);
      RouteInUpTo(s, name, k, |s.t.routes|);
    }
  }

  // ---- the search ------------------------------------------------------------------------------

  ghost function Elements(ids: seq<u16>): set<u16> {
    set i | 0 <= i < |ids| :: ids[i]
  }

  predicate Distinct(ids: seq<u16>) {
    (forall i, j | 0 <= i < j < |ids| :: ids[i] != ids[j]) && forall i | 0 <= i < |ids| :: ids[i] != 0
  }

  lemma {:induction false} DistinctCount(ids: seq<u16>)
    requires Distinct(ids)
    ensures |Elements(ids)| == |ids|
  {
    if ids != [] {
      var front, last := ids[..|ids| - 1], ids[|ids| - 1];
      DistinctCount(front);
      assert Elements(ids) == Elements(front) + {last};
    }
  }

  lemma ElementsSnoc(ids: seq<u16>, id: u16)
    ensures Elements(ids + [id]) == Elements(ids) + {id}
  {
    var r := ids + [id];
    assert r[|ids|] == id && forall i | 0 <= i < |ids| :: r[i] == ids[i];
  }

  /** ac_add_unique_id: zero and known ids are passed over; a ninth id is refused. */
  method AddUniqueId(ids: array<u16>, count: nat, id: u16) returns (ok: bool, newCount: nat)
    requires ids.Length == MAX_ROUTE_IDS && count <= MAX_ROUTE_IDS && Distinct(ids[..count])
    modifies ids
    ensures newCount <= MAX_ROUTE_IDS && Distinct(ids[..newCount])
    ensures Elements(ids[..newCount])
      == old(Elements(ids[..count])) + if ok && id != 0 then {id} else {}
    ensures !ok ==> count == MAX_ROUTE_IDS && id != 0 && id !in old(Elements(ids[..count]))
  {
    ok, newCount := true, count;
    if id == 0 {
      return;
    }
    for i := 0 to count
      invariant forall k | 0 <= k < i :: ids[k] != id
    {
      if ids[i] == id {
        assert ids[..count][i] == id;
        return;
      }
    }
    if count >= MAX_ROUTE_IDS {
      return false, count;
    }
    ids[count] := id;
    newCount := count + 1;
    assert ids[..newCount] == old(ids[..count]) + [id];
    ElementsSnoc(old(ids[..count]), id);
  }

  lemma NinthId(ids: seq<u16>, id: u16)
    requires Distinct(ids) && |ids| == MAX_ROUTE_IDS && id !in Elements(ids)
    ensures |Elements(ids) + {id}| > MAX_ROUTE_IDS
  {
    DistinctCount(ids);
  }

  /** No chain of virtual widgets is longer than the depth left. */
  ghost predicate Shallow(s: Search, name: Name, depth: nat) {
    forall p | VirtualChain(s, name, p) :: |p| <= |s.t.widgets| - depth
  }

  ghost predicate RouteShallow(s: Search, name: Name, r: Route, depth: nat) {
    var v := FirstNamed(s.t.widgets, Far(s, r), 0);
    Leads(s, name, r, v) && IsVirtual(s.t, v) ==> Shallow(s, s.t.widgets[v].name, depth)
  }

  lemma RoutesShallow(s: Search, name: Name, depth: nat)
    requires depth <= |s.t.widgets|
    requires forall k | 0 <= k < |s.t.routes| :: RouteShallow(s, name, s.t.routes[k], depth + 1)
    ensures Shallow(s, name, depth)
  {
    forall p | VirtualChain(s, name, p)
      ensures |p| <= |s.t.widgets| - depth
    {
      if p != [] {
        var k :| 0 <= k < |s.t.routes| && Leads(s, name, s.t.routes[k], p[0]);
        assert RouteShallow(s, name, s.t.routes[k], depth + 1);
        assert VirtualChain(s, s.t.widgets[p[0]].name, p[1..]);
      }
    }
  }

  lemma DeepNext(s: Search, name: Name, k: nat, v: nat, depth: nat)
    requires k < |s.t.routes| && Leads(s, name, s.t.routes[k], v) && IsVirtual(s.t, v)
    requires !Shallow(s, s.t.widgets[v].name, depth + 1)
    ensures !Shallow(s, name, depth)
  {
    var p :| VirtualChain(s, s.t.widgets[v].name, p) && |p| > |s.t.widgets| - (depth + 1);
    assert ([v] + p)[1..] == p;
    assert VirtualChain(s, name, [v] + p);
  }

  lemma MoreIds(some: set<u16>, all: set<u16>)
    requires some <= all
    ensures |some| <= |all|
  {
    assert all == some + (all - some);
  }

  /** Why the search fails: more distinct ids than fit, or virtual widgets nested too deep. */
  ghost predicate TooMuch(s: Search, name: Name, before: set<u16>, depth: nat)
    requires SearchOk(s)
  {
    |before + Ids(s, name)| > MAX_ROUTE_IDS || !Shallow(s, name, depth)
  }

  ghost predicate RouteTooMuch(s: Search, name: Name, r: Route, before: set<u16>, depth: nat)
    requires SearchOk(s)
  {
    |before + RouteIds(s, name, r)| > MAX_ROUTE_IDS || !RouteShallow(s, name, r, depth)
  }

  /** A failure on one route is a failure of the whole search. */
  lemma FailureSpreads(s: Search, name: Name, k: nat, before: set<u16>, depth: nat)
    requires SearchOk(s) && k < |s.t.routes|
    requires RouteTooMuch(s, name, s.t.routes[k], before + IdsUpTo(s, name, k), depth + 1)
    ensures TooMuch(s, name, before, depth)
  {
    if !RouteShallow(s, name, s.t.routes[k], depth + 1) {
      DeepNext(s, name, k, FirstNamed(s.t.widgets, Far(s, s.t.routes[k]), 0), depth);
    } else {
      AllRoutes(s, name);
      UpToGrows(s, name, k + 1);
      MoreIds(before + IdsUpTo(s, name, k) + RouteIds(s, name, s.t.routes[k]), before + Ids(s, name));
    }
  }

  lemma UpToGrows(s: Search, name: Name, n: nat)
    requires SearchOk(s) && n <= |s.t.routes|
    ensures IdsUpTo(s, name, n) <= IdsUpTo(s, name, |s.t.routes|)
  {
    forall k | 0 <= k < n
      ensures RouteIds(s, name, s.t.routes[k]) <= IdsUpTo(s, name, |s.t.routes|)
    {
      RouteInUpTo(s, name, k, |s.t.routes|);
    }
    UpToWithin(s, name, n, IdsUpTo(s, name, |s.t.routes|));
  }

  /** One route of the search: passed over, searched behind, or its component added. */
  method VisitRoute(s: Search, name: Name, r: Route, ids: array<u16>, count: nat, depth: nat)
    returns (ok: bool, newCount: nat)
    requires SearchOk(s) && depth <= |s.t.widgets|
    requires ids.Length == MAX_ROUTE_IDS && count <= MAX_ROUTE_IDS && Distinct(ids[..count])
    modifies ids
    ensures newCount <= MAX_ROUTE_IDS && Distinct(ids[..newCount])
    ensures ok ==> Elements(ids[..newCount]) == old(Elements(ids[..count])) + RouteIds(s, name, r)
    ensures ok ==> RouteShallow(s, name, r, depth + 1)
    ensures !ok ==> RouteTooMuch(s, name, r, old(Elements(ids[..count])), depth + 1)
    decreases |s.t.widgets| + 1 - depth, 0
  {
    if Near(s, r) != name || Far(s, r) == 0 {
      return true, count;
    }
    var v := WidgetIndexByName(s.t, Far(s, r));
    if v == |s.t.widgets| || s.t.widgets[v].pipelineId != s.pipelineId {
      return true, count;
    }
    if IsVirtual(s.t, v) {
      ok, newCount := CollectRouteIds(s, s.t.widgets[v].name, ids, count, depth + 1);
    } else {
      ghost var before := ids[..count];
      ok, newCount := AddUniqueId(ids, count, s.compIds[v]);
      if !ok {
        NinthId(before, s.compIds[v]);
      }
    }
  }

  ghost predicate AllShallow(s: Search, name: Name, n: nat, depth: nat)
    requires n <= |s.t.routes|
  {
    forall k | 0 <= k < n :: RouteShallow(s, name, s.t.routes[k], depth)
  }

  /** The ids found are those there were and those that the first n routes add. */
  ghost predicate Found(s: Search, name: Name, n: nat, before: set<u16>, now: set<u16>)
    requires SearchOk(s) && n <= |s.t.routes|
  {
    now == before + IdsUpTo(s, name, n)
  }

  lemma OneMoreRoute(s: Search, name: Name, n: nat, before: set<u16>, now: set<u16>, next: set<u16>, depth: nat)
    requires SearchOk(s) && n < |s.t.routes| && Found(s, name, n, before, now) && AllShallow(s, name, n, depth)
    requires next == now + RouteIds(s, name, s.t.routes[n]) && RouteShallow(s, name, s.t.routes[n], depth)
    ensures Found(s, name, n + 1, before, next) && AllShallow(s, name, n + 1, depth)
  {}

  /** ac_collect_route_ids: the ids of the components reached are added, each once, or the search says why not. */
  method CollectRouteIds(s: Search, name: Name, ids: array<u16>, count: nat, depth: nat)
    returns (ok: bool, newCount: nat)
    requires SearchOk(s) && depth <= |s.t.widgets| + 1
    requires ids.Length == MAX_ROUTE_IDS && count <= MAX_ROUTE_IDS && Distinct(ids[..count])
    modifies ids
    ensures newCount <= MAX_ROUTE_IDS && Distinct(ids[..newCount])
    ensures ok ==> Elements(ids[..newCount]) == old(Elements(ids[..count])) + Ids(s, name)
    ensures ok ==> Shallow(s, name, depth)
    ensures !ok ==> TooMuch(s, name, old(Elements(ids[..count])), depth)
    decreases |s.t.widgets| + 1 - depth, 1
  {
    ok, newCount := true, count;
    if depth > |s.t.widgets| {
      assert VirtualChain(s, name, []);
      return false, count;
    }
    for i := 0 to |s.t.routes|
      invariant newCount <= MAX_ROUTE_IDS && Distinct(ids[..newCount])
      invariant ok && Found(s, name, i, old(Elements(ids[..count])), Elements(ids[..newCount]))
      invariant AllShallow(s, name, i, depth + 1)
    {
      ghost var now := Elements(ids[..newCount]);
      ok, newCount := VisitRoute(s, name, s.t.routes[i], ids, newCount, depth);
      if !ok {
        FailureSpreads(s, name, i, old(Elements(ids[..count])), depth);
        return;
      }
      OneMoreRoute(s, name, i, old(Elements(ids[..count])), now, Elements(ids[..newCount]), depth + 1);
    }
    AllRoutes(s, name);
    RoutesShallow(s, name, depth);
  }

  // ---- when the search succeeds ----------------------------------------------------------------

  /** The virtual widgets that the search passes through come back to one of them. */
  ghost predicate InLoop(s: Search, name: Name) {
    exists p, i, j :: VirtualChain(s, name, p) && 0 <= i < j < |p| && p[i] == p[j]
  }

  lemma {:induction false} ChainIndices(s: Search, name: Name, p: seq<nat>)
    requires VirtualChain(s, name, p)
    ensures forall i | 0 <= i < |p| :: p[i] < |s.t.widgets| && IsVirtual(s.t, p[i])
    decreases |p|
  {
    if |p| > 1 {
      assert p[1..][|p| - 2] == p[|p| - 1];
      ChainIndices(s, s.t.widgets[p[0]].name, p[1..]);
      assert forall i | 0 < i < |p| :: p[i] == p[1..][i - 1];
    }
  }

  lemma {:induction false} ChainSplit(s: Search, name: Name, p: seq<nat>, i: nat)
    requires VirtualChain(s, name, p) && i < |p|
    ensures VirtualChain(s, name, p[..i + 1])
    ensures p[i] < |s.t.widgets| && VirtualChain(s, s.t.widgets[p[i]].name, p[i + 1..])
    decreases |p|
  {
    ChainIndices(s, name, p);
    if i > 0 {
      assert p[1..][|p| - 2] == p[|p| - 1];
      ChainSplit(s, s.t.widgets[p[0]].name, p[1..], i - 1);
      assert p[1..][..i] == p[..i + 1][1..];
      assert p[1..][i..] == p[i + 1..];
    } else {
      assert |p| > 1 ==> p[1..][|p| - 2] == p[|p| - 1];
    }
  }

  lemma {:induction false} ChainJoin(s: Search, name: Name, a: seq<nat>, b: seq<nat>)
    requires a != [] && VirtualChain(s, name, a)
    requires VirtualChain(s, s.t.widgets[a[|a| - 1]].name, b)
    ensures VirtualChain(s, name, a + b)
    decreases |a|
  {
    if |a| > 1 {
      assert a[1..][|a| - 2] == a[|a| - 1];
      ChainJoin(s, s.t.widgets[a[0]].name, a[1..], b);
      assert (a + b)[1..] == a[1..] + b;
      assert (a + b)[|a + b| - 1] == (a[1..] + b)[|a + b| - 2];
    } else {
      assert (a + b)[1..] == b;
    }
  }

  /** Going round a loop makes chains of any length. */
  lemma {:induction false} Pump(s: Search, name: Name, a: seq<nat>, c: seq<nat>, length: nat) returns (p: seq<nat>)
    requires a != [] && c != [] && VirtualChain(s, name, a)
    requires VirtualChain(s, s.t.widgets[a[|a| - 1]].name, c) && c[|c| - 1] == a[|a| - 1]
    ensures VirtualChain(s, name, p) && |p| > length
    ensures p != [] && p[|p| - 1] == a[|a| - 1]
  {
    if length == 0 {
      p := a;
    } else {
      p := Pump(s, name, a, c, length - 1);
      ChainJoin(s, name, p, c);
      p := p + c;
    }
  }

  lemma LoopIsDeep(s: Search, name: Name)
    requires InLoop(s, name)
    ensures !Shallow(s, name, 0)
  {
    var p, i, j :| VirtualChain(s, name, p) && 0 <= i < j < |p| && p[i] == p[j];
    ChainSplit(s, name, p, j);
    ChainSplit(s, name, p[..j + 1], i);
    var a, c := p[..j + 1][..i + 1], p[..j + 1][i + 1..];
    var q := Pump(s, name, a, c, |s.t.widgets|);
  }

  lemma {:induction false} Pigeonhole(p: seq<nat>, n: nat) returns (i: nat, j: nat)
    requires |p| > n && forall k | 0 <= k < |p| :: p[k] < n
    ensures i < j < |p| && p[i] == p[j]
    decreases n
  {
    if k :| 0 <= k < |p| - 1 && p[k] == p[|p| - 1] {
      return k, |p| - 1;
    }
    var last := p[|p| - 1];
    var q := seq(|p| - 1, k requires 0 <= k < |p| - 1 => if p[k] < last then p[k] else p[k] - 1 as nat);
    i, j := Pigeonhole(q, n - 1);
  }

  lemma DeepIsLoop(s: Search, name: Name)
    requires !Shallow(s, name, 0)
    ensures InLoop(s, name)
  {
    var p :| VirtualChain(s, name, p) && |p| > |s.t.widgets|;
    ChainIndices(s, name, p);
    var i, j := Pigeonhole(p, |s.t.widgets|);
  }

  /** The search as the installer calls it: it succeeds exactly if at most eight distinct ids are reached and no
      loop of virtual widgets is, and then finds exactly those ids, each once. */
  method Collect(s: Search, name: Name) returns (ok: bool, found: seq<u16>)
    requires SearchOk(s)
    ensures ok <==> |Ids(s, name)| <= MAX_ROUTE_IDS && !InLoop(s, name)
    ensures ok ==> |found| <= MAX_ROUTE_IDS && Distinct(found) && Elements(found) == Ids(s, name)
  {
    var ids := new u16[MAX_ROUTE_IDS](_ => 0);
    var count;
    assert Elements(ids[..0]) == {};
    ok, count := CollectRouteIds(s, name, ids, 0, 0);
    assert {} + Ids(s, name) == Ids(s, name);
    found := ids[..count];
    if ok {
      DistinctCount(found);
      if InLoop(s, name) {
        LoopIsDeep(s, name);
      }
    } else if !Shallow(s, name, 0) {
      DeepIsLoop(s, name);
    }
  }

  // ---- sources and sinks -----------------------------------------------------------------------

  /** The widget that its name stands for. */
  predicate Canonical(t: Topology, v: nat) {
    v < |t.widgets| && t.widgets[v].name != 0 && FirstNamed(t.widgets, t.widgets[v].name, 0) == v
  }

  function Other(s: Search): Search {
    s.(sourceSide := !s.sourceSide)
  }

  /** A step from u to v is a step from v to u on the other side. */
  lemma StepBack(s: Search, u: nat, v: nat)
    requires Canonical(s.t, u) && s.t.widgets[u].pipelineId == s.pipelineId
    requires v < |s.t.widgets| && Adjacent(s, s.t.widgets[u].name, v)
    ensures Canonical(s.t, v) && Adjacent(Other(s), s.t.widgets[v].name, u)
    ensures s.t.widgets[v].pipelineId == s.pipelineId
  {
    var k :| 0 <= k < |s.t.routes| && Leads(s, s.t.widgets[u].name, s.t.routes[k], v);
    assert Leads(Other(s), s.t.widgets[v].name, s.t.routes[k], u);
  }

  /** A chain from u, walked backwards; back is the way already walked, from u to where the walk began. */
  lemma {:induction false} WalkBack(s: Search, u: nat, p: seq<nat>, back: seq<nat>) returns (q: seq<nat>)
    requires Canonical(s.t, u) && s.t.widgets[u].pipelineId == s.pipelineId
    requires p != [] && Chain(s, s.t.widgets[u].name, p)
    requires Chain(Other(s), s.t.widgets[u].name, back) && (back != [] ==> IsVirtual(s.t, u))
    ensures p[|p| - 1] < |s.t.widgets| && Canonical(s.t, p[|p| - 1])
    ensures q != [] && q[|q| - 1] == (if back == [] then u else back[|back| - 1])
    ensures Chain(Other(s), s.t.widgets[p[|p| - 1]].name, q)
    decreases |p|
  {
    StepBack(s, u, p[0]);
    assert ([u] + back)[1..] == back;
    if |p| == 1 {
      q := [u] + back;
    } else {
      assert p[1..][|p| - 2] == p[|p| - 1];
      q := WalkBack(s, p[0], p[1..], [u] + back);
    }
  }

  predicate IsComponent(s: Search, v: nat) {
    Canonical(s.t, v) && !IsVirtual(s.t, v) && s.t.widgets[v].pipelineId == s.pipelineId
  }

  lemma ReachedBack(s: Search, u: nat, v: nat)
    requires IsComponent(s, u) && v < |s.t.widgets| && Reaches(s, s.t.widgets[u].name, v)
    ensures Reaches(Other(s), s.t.widgets[v].name, u)
  {
    var p :| |p| > 0 && p[|p| - 1] == v && Chain(s, s.t.widgets[u].name, p);
    var q := WalkBack(s, u, p, []);
  }

  /** Component ids as the installer allocates them: non-zero, and different for different components. */
  ghost predicate IdsOk(s: Search) {
    SearchOk(s)
    && (forall v | 0 <= v < |s.compIds| && s.compIds[v] != 0 :: s.t.widgets[v].pipelineId == s.pipelineId)
    && (forall v, w | 0 <= v < w < |s.compIds| && s.compIds[v] != 0 :: s.compIds[v] != s.compIds[w])
    && (forall v | 0 <= v < |s.compIds| && s.t.widgets[v].pipelineId == s.pipelineId && s.t.widgets[v].hasType ::
        s.compIds[v] != 0)
  }

  lemma IdMeansReached(s: Search, name: Name, v: nat)
    requires IdsOk(s) && IsComponent(s, v)
    ensures s.compIds[v] in Ids(s, name) <==> Reaches(s, name, v)
  {
    if s.compIds[v] in Ids(s, name) {
      var w :| 0 <= w < |s.t.widgets| && Reaches(s, name, w) && s.compIds[w] != 0 && s.compIds[w] == s.compIds[v];
      assert w == v;
    }
  }

  /** v is a sink of u exactly when u is a source of v, through however many virtual widgets. */
  lemma SourceSinkDuality(s: Search, u: nat, v: nat)
    requires IdsOk(s) && IsComponent(s, u) && IsComponent(s, v)
    ensures s.compIds[v] in Ids(s, s.t.widgets[u].name) <==> s.compIds[u] in Ids(Other(s), s.t.widgets[v].name)
  {
    IdMeansReached(s, s.t.widgets[u].name, v);
    IdMeansReached(Other(s), s.t.widgets[v].name, u);
    if Reaches(s, s.t.widgets[u].name, v) {
      ReachedBack(s, u, v);
    }
    if Reaches(Other(s), s.t.widgets[v].name, u) {
      ReachedBack(Other(s), v, u);
      assert Other(Other(s)) == s;
    }
  }

  // ---- which way routes run ----------------------------------------------------------------------

  /** Routes that lead from the named widget to v, the sink of each the source of the next, through virtual widgets
      of the pipeline. */
  predicate Downstream(t: Topology, pid: u32, name: Name, ks: seq<nat>, v: nat)
    decreases |ks|
  {
    ks != [] && ks[0] < |t.routes| && t.routes[ks[0]].source == name && t.routes[ks[0]].sink != 0
    && var sink := FirstNamed(t.widgets, t.routes[ks[0]].sink, 0);
      sink < |t.widgets| && t.widgets[sink].pipelineId == pid
      && if |ks| == 1 then sink == v else IsVirtual(t, sink) && Downstream(t, pid, t.widgets[sink].name, ks[1..], v)
  }

  lemma {:induction false} ChainRuns(s: Search, name: Name, p: seq<nat>) returns (ks: seq<nat>)
    requires !s.sourceSide && p != [] && Chain(s, name, p)
    ensures Downstream(s.t, s.pipelineId, name, ks, p[|p| - 1])
    decreases |p|
  {
    var k :| 0 <= k < |s.t.routes| && Leads(s, name, s.t.routes[k], p[0]);
    ks := [k];
    if |p| > 1 {
      var more := ChainRuns(s, s.t.widgets[p[0]].name, p[1..]);
      ks := [k] + more;
      assert ks[1..] == more && p[1..][|p| - 2] == p[|p| - 1];
    }
  }

  lemma {:induction false} RunIsChain(s: Search, name: Name, ks: seq<nat>, v: nat) returns (p: seq<nat>)
    requires !s.sourceSide && Downstream(s.t, s.pipelineId, name, ks, v)
    ensures p != [] && p[|p| - 1] == v && Chain(s, name, p)
    decreases |ks|
  {
    var sink := FirstNamed(s.t.widgets, s.t.routes[ks[0]].sink, 0);
    assert Leads(s, name, s.t.routes[ks[0]], sink);
    p := [sink];
    if |ks| > 1 {
      var more := RunIsChain(s, s.t.widgets[sink].name, ks[1..], v);
      p := [sink] + more;
      assert p[1..] == more;
    }
  }

  ghost predicate Flows(t: Topology, pid: u32, name: Name, v: nat) {
    exists ks :: Downstream(t, pid, name, ks, v)
  }

  lemma ReachedDownstream(s: Search, name: Name, v: nat)
    requires !s.sourceSide && v < |s.t.widgets| && !IsVirtual(s.t, v)
    ensures Reaches(s, name, v) <==> Flows(s.t, s.pipelineId, name, v)
  {
    if Reaches(s, name, v) {
      var p :| |p| > 0 && p[|p| - 1] == v && Chain(s, name, p);
      var ks := ChainRuns(s, name, p);
    }
    if Flows(s.t, s.pipelineId, name, v) {
      var ks :| Downstream(s.t, s.pipelineId, name, ks, v);
      var p := RunIsChain(s, name, ks, v);
    }
  }

  /** The sinks of u are the components to which routes lead from it, source to sink, and its sources those from which
      they lead to it. */
  lemma RoutesRunDown(t: Topology, pid: u32, ids: seq<u16>, u: nat, v: nat)
    requires var s := Search(t, pid, ids, false); IdsOk(s) && IsComponent(s, u) && IsComponent(s, v)
    ensures ids[v] in Ids(Search(t, pid, ids, false), t.widgets[u].name) <==> Flows(t, pid, t.widgets[u].name, v)
    ensures ids[u] in Ids(Search(t, pid, ids, true), t.widgets[v].name) <==> Flows(t, pid, t.widgets[u].name, v)
  {
    var s, name := Search(t, pid, ids, false), t.widgets[u].name;
    IdMeansReached(s, name, v);
    SourceSinkDuality(s, u, v);
    assert Other(s) == Search(t, pid, ids, true);
    ReachedDownstream(s, name, v);
  }
}
