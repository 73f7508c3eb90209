/** What a parsed topology holds, and how its counts hang together. */
module TopologyData {
  import opened Bytes
  import opened Wrappers
  import opened TopologyHeap

  datatype TokenKind = Value | Uuid | Text

  datatype Token = Token(token: u32, kind: TokenKind, content: seq<byte>)

  // A control's private data, if it is kept: its bytes and the block they were copied to.
  datatype Control = Control(name: seq<byte>, kind: u32, content: seq<byte>, payload: Option<nat>)

  datatype Widget = Widget(
    name: seq<byte>,
    id: u32,
    pipelineId: u32,
    tokens: List<Token>,
    controls: List<Control>)

  datatype Route = Route(sink: seq<byte>, control: seq<byte>, source: seq<byte>)

  datatype Pipeline = Pipeline(
    id: u32,
    index: nat,
    widgetCount: nat,
    routeCount: nat,
    hasScheduler: bool)

  // ---- counting by key -------------------------------------------------------------------------

  function Occurs(keys: seq<u32>, id: u32): (n: nat)
    ensures n <= |keys|
  {
    if keys == [] then 0 else Occurs(keys[..|keys| - 1], id) + if keys[|keys| - 1] == id then 1 else 0
  }

  function SumOccurs(ids: seq<u32>, keys: seq<u32>): nat {
    if ids == [] then 0 else SumOccurs(ids[..|ids| - 1], keys) + Occurs(keys, ids[|ids| - 1])
  }

  predicate DistinctIds(ids: seq<u32>) {
    forall i, j | 0 <= i < j < |ids| :: ids[i] != ids[j]
  }

  lemma {:induction false} SumSnoc(ids: seq<u32>, keys: seq<u32>, key: u32)
    ensures SumOccurs(ids, keys + [key]) == SumOccurs(ids, keys) + Occurs(ids, key)
  {
    assert (keys + [key])[..|keys|] == keys;
    if ids != [] {
      SumSnoc(ids[..|ids| - 1], keys, key);
    }
  }

  lemma {:induction false} SumEmpty(ids: seq<u32>)
    ensures SumOccurs(ids, []) == 0
  {
    if ids != [] {
      SumEmpty(ids[..|ids| - 1]);
    }
  }

  lemma {:induction false} OccursOnce(ids: seq<u32>, key: u32)
    requires DistinctIds(ids)
    ensures Occurs(ids, key) == if key in ids then 1 else 0
  {
    if ids != [] {
      var front := ids[..|ids| - 1];
      OccursOnce(front, key);
      assert ids == front + [ids[|ids| - 1]];
    }
  }

  /** Counts by distinct keys add up to the number of things counted. */
  lemma {:induction false} CountsAddUp(ids: seq<u32>, keys: seq<u32>)
    requires DistinctIds(ids) && forall k | 0 <= k < |keys| :: keys[k] in ids
    ensures SumOccurs(ids, keys) == |keys|
  {
    if keys == [] {
      SumEmpty(ids);
    } else {
      var front, last := keys[..|keys| - 1], keys[|keys| - 1];
      CountsAddUp(ids, front);
      assert front + [last] == keys;
      SumSnoc(ids, front, last);
      OccursOnce(ids, last);
    }
  }

  lemma {:induction false} OccursNone(keys: seq<u32>, id: u32)
    requires id !in keys
    ensures Occurs(keys, id) == 0
  {
    if keys != [] {
      OccursNone(keys[..|keys| - 1], id);
    }
  }

  // ---- pipelines -------------------------------------------------------------------------------

  function PipelineIds(ps: seq<Pipeline>): (ids: seq<u32>)
    ensures |ids| == |ps| && forall i | 0 <= i < |ids| :: ids[i] == ps[i].id
  {
    seq(|ps|, i requires 0 <= i < |ps| => ps[i].id)
  }

  function WidgetKeys(ws: seq<Widget>): (keys: seq<u32>)
    ensures |keys| == |ws| && forall k | 0 <= k < |keys| :: keys[k] == ws[k].pipelineId
  {
    seq(|ws|, k requires 0 <= k < |ws| => ws[k].pipelineId)
  }

  /** ac_find_widget_by_name and ac_find_pipeline_by_id: the first that matches. */
  function FindWidget(ws: seq<Widget>, name: seq<byte>, from: nat): (r: nat)
    requires from <= |ws|
    ensures from <= r <= |ws| && (r < |ws| ==> ws[r].name == name)
    ensures forall k | from <= k < r :: ws[k].name != name
    decreases |ws| - from
  {
    if from == |ws| || ws[from].name == name then from else FindWidget(ws, name, from + 1)
  }

  function FindPipeline(ps: seq<Pipeline>, id: u32, from: nat): (r: nat)
    requires from <= |ps|
    ensures from <= r <= |ps| && (r < |ps| ==> ps[r].id == id)
    ensures forall i | from <= i < r :: ps[i].id != id
    decreases |ps| - from
  {
    if from == |ps| || ps[from].id == id then from else FindPipeline(ps, id, from + 1)
  }

  /** Both ends of the route are widgets. */
  predicate Resolved(r: Route, ws: seq<Widget>) {
    FindWidget(ws, r.source, 0) < |ws| && FindWidget(ws, r.sink, 0) < |ws|
  }

  /** The pipelines of the sinks of the resolved routes among the first n. */
  function SinkKeys(routes: seq<Route>, ws: seq<Widget>, n: nat): seq<u32>
    requires n <= |routes|
  {
    if n == 0 then []
    else if Resolved(routes[n - 1], ws) then
      SinkKeys(routes, ws, n - 1) + [ws[FindWidget(ws, routes[n - 1].sink, 0)].pipelineId]
    else SinkKeys(routes, ws, n - 1)
  }

  function ResolvedCount(routes: seq<Route>, ws: seq<Widget>, n: nat): nat
    requires n <= |routes|
  {
    if n == 0 then 0 else ResolvedCount(routes, ws, n - 1) + if Resolved(routes[n - 1], ws) then 1 else 0
  }

  /** Ids are distinct, indices are positions, and each pipeline counts the keys that are its id. */
  ghost predicate PipelinesCount(ps: seq<Pipeline>, widgetKeys: seq<u32>, routeKeys: seq<u32>) {
    PipelinesTally(ps, widgetKeys, routeKeys) && KeysKnown(PipelineIds(ps), widgetKeys)
  }

  /** Every key is an id. */
  ghost predicate KeysKnown(ids: seq<u32>, keys: seq<u32>) {
    forall k | 0 <= k < |keys| :: keys[k] in ids
  }

  ghost predicate PipelinesTally(ps: seq<Pipeline>, widgetKeys: seq<u32>, routeKeys: seq<u32>) {
    && (forall i, j | 0 <= i < j < |ps| :: ps[i].id != ps[j].id)
    && (forall i | 0 <= i < |ps| :: ps[i].index == i)
    && (forall i | 0 <= i < |ps| :: ps[i].widgetCount == Occurs(widgetKeys, ps[i].id))
    && (forall i | 0 <= i < |ps| :: ps[i].routeCount == Occurs(routeKeys, ps[i].id))
  }

  function SumWidgets(ps: seq<Pipeline>): nat {
    if ps == [] then 0 else SumWidgets(ps[..|ps| - 1]) + ps[|ps| - 1].widgetCount
  }

  function SumRoutes(ps: seq<Pipeline>): nat {
    if ps == [] then 0 else SumRoutes(ps[..|ps| - 1]) + ps[|ps| - 1].routeCount
  }

  lemma {:induction false} SumsAre(ps: seq<Pipeline>, widgetKeys: seq<u32>, routeKeys: seq<u32>)
    requires forall i | 0 <= i < |ps| :: ps[i].widgetCount == Occurs(widgetKeys, ps[i].id)
    requires forall i | 0 <= i < |ps| :: ps[i].routeCount == Occurs(routeKeys, ps[i].id)
    ensures SumWidgets(ps) == SumOccurs(PipelineIds(ps), widgetKeys)
    ensures SumRoutes(ps) == SumOccurs(PipelineIds(ps), routeKeys)
  {
    if ps != [] {
      var front := ps[..|ps| - 1];
      SumsAre(front, widgetKeys, routeKeys);
      assert PipelineIds(ps)[..|ps| - 1] == PipelineIds(front);
    }
  }

  lemma {:induction false} SinksKnown(routes: seq<Route>, ws: seq<Widget>, n: nat)
    requires n <= |routes|
    ensures |SinkKeys(routes, ws, n)| == ResolvedCount(routes, ws, n)
    ensures forall k | 0 <= k < |SinkKeys(routes, ws, n)| :: SinkKeys(routes, ws, n)[k] in WidgetKeys(ws)
  {
    if n > 0 {
      SinksKnown(routes, ws, n - 1);
      if Resolved(routes[n - 1], ws) {
        assert WidgetKeys(ws)[FindWidget(ws, routes[n - 1].sink, 0)] in WidgetKeys(ws);
      }
    }
  }

  lemma MembersThrough(some: seq<u32>, keys: seq<u32>, ids: seq<u32>)
    requires forall k | 0 <= k < |some| :: some[k] in keys
    requires forall k | 0 <= k < |keys| :: keys[k] in ids
    ensures forall k | 0 <= k < |some| :: some[k] in ids
  {
    forall k | 0 <= k < |some|
      ensures some[k] in ids
    {
      var j :| 0 <= j < |keys| && keys[j] == some[k];
    }
  }

  /** Distinct pipeline ids, as a list. */
  lemma IdsDistinct(ps: seq<Pipeline>)
    requires forall i, j | 0 <= i < j < |ps| :: ps[i].id != ps[j].id
    ensures DistinctIds(PipelineIds(ps))
  {}

  lemma SumsAddUp(ps: seq<Pipeline>, widgetKeys: seq<u32>, routeKeys: seq<u32>)
    requires PipelinesCount(ps, widgetKeys, routeKeys)
    requires forall k | 0 <= k < |routeKeys| :: routeKeys[k] in widgetKeys
    ensures SumWidgets(ps) == |widgetKeys| && SumRoutes(ps) == |routeKeys|
  {
    var ids := PipelineIds(ps);
    SumsAre(ps, widgetKeys, routeKeys);
    IdsDistinct(ps);
    CountsAddUp(ids, widgetKeys);
    MembersThrough(routeKeys, widgetKeys, ids);
    CountsAddUp(ids, routeKeys);
  }

  /** The widget counts of the pipelines sum to the widgets, and their route counts to the resolved routes. */
  lemma Conservation(ps: seq<Pipeline>, ws: seq<Widget>, routes: seq<Route>)
    requires PipelinesCount(ps, WidgetKeys(ws), SinkKeys(routes, ws, |routes|))
    ensures SumWidgets(ps) == |ws| && SumRoutes(ps) == ResolvedCount(routes, ws, |routes|)
  {
    SinksKnown(routes, ws, |routes|);
    SumsAddUp(ps, WidgetKeys(ws), SinkKeys(routes, ws, |routes|));
  }

  // ---- ownership -------------------------------------------------------------------------------

  /** How many of the controls own block b as their payload. */
  function PayloadRefs(controls: seq<Control>, b: nat): nat {
    if controls == [] then 0
    else PayloadRefs(controls[..|controls| - 1], b) + Refers(controls[|controls| - 1].payload, b)
  }

  /** How many owners block b has in a widget. */
  function WidgetRefs(w: Widget, b: nat): nat {
    Refers(w.tokens.block, b) + Refers(w.controls.block, b) + PayloadRefs(w.controls.items, b)
  }

  function AllWidgetRefs(ws: seq<Widget>, b: nat): nat {
    if ws == [] then 0 else AllWidgetRefs(ws[..|ws| - 1], b) + WidgetRefs(ws[|ws| - 1], b)
  }

  lemma PayloadRefsSnoc(controls: seq<Control>, c: Control, b: nat)
    ensures PayloadRefs(controls + [c], b) == PayloadRefs(controls, b) + Refers(c.payload, b)
  {
    assert (controls + [c])[..|controls|] == controls;
  }

  lemma AllWidgetRefsSnoc(ws: seq<Widget>, w: Widget, b: nat)
    ensures AllWidgetRefs(ws + [w], b) == AllWidgetRefs(ws, b) + WidgetRefs(w, b)
  {
    assert (ws + [w])[..|ws|] == ws;
  }

  /** How many of some pointers point to block b. */
  function ListRefs(blocks: seq<Option<nat>>, b: nat): nat {
    if blocks == [] then 0 else ListRefs(blocks[..|blocks| - 1], b) + Refers(blocks[|blocks| - 1], b)
  }

  lemma {:induction false} ListRefsSwap(blocks: seq<Option<nat>>, i: nat, to: Option<nat>, b: nat)
    requires i < |blocks|
    ensures ListRefs(blocks[i := to], b) + Refers(blocks[i], b) == ListRefs(blocks, b) + Refers(to, b)
  {
    var front, last := blocks[..|blocks| - 1], blocks[|blocks| - 1];
    if i < |front| {
      ListRefsSwap(front, i, to, b);
      assert blocks[i := to][..|front|] == front[i := to];
    } else {
      assert blocks[i := to][..|front|] == front;
    }
  }

  /** Mentioned where the owners of block b are counted. */
  ghost predicate Block(b: nat) { true }

  /** Every live block has exactly one owner: it was live before, a widget or an array of the topology holds it,
      the widget w under construction does, one reference is still loose, or it was lost. */
  ghost predicate Owned(live: multiset<nat>, base: multiset<nat>, leaked: multiset<nat>, ws: seq<Widget>,
    blocks: seq<Option<nat>>, w: Widget, loose: Option<nat>)
  {
    forall b: nat {:trigger Block(b)} :: Block(b) ==>
      live[b]
        == base[b] + leaked[b] + AllWidgetRefs(ws, b) + ListRefs(blocks, b) + WidgetRefs(w, b) + Refers(loose, b)
  }

  lemma {:induction false} BlockIsLive(blocks: seq<Option<nat>>, i: nat, b: nat)
    requires i < |blocks| && blocks[i] == Some(b)
    ensures ListRefs(blocks, b) > 0
  {
    if i < |blocks| - 1 {
      BlockIsLive(blocks[..|blocks| - 1], i, b);
    }
  }

  /** The i-th array may be moved by whoever knows the other blocks as rest. */
  lemma OwnedLends(live: multiset<nat>, base: multiset<nat>, leaked: multiset<nat>, ws: seq<Widget>,
    blocks: seq<Option<nat>>, w: Widget, loose: Option<nat>, i: nat) returns (rest: multiset<nat>)
    requires Owned(live, base, leaked, ws, blocks, w, loose) && i < |blocks|
    ensures Held(live, rest, blocks[i])
    ensures forall now, to | Held(now, rest, to) :: Owned(now, base, leaked, ws, blocks[i := to], w, loose)
  {
    if blocks[i].Some? {
      BlockIsLive(blocks, i, blocks[i].value);
      assert Block(blocks[i].value);
    }
    rest := Without(live, blocks[i]);
    forall now, to | Held(now, rest, to)
      ensures Owned(now, base, leaked, ws, blocks[i := to], w, loose)
    {
      forall b: nat
        ensures now[b] == base[b] + leaked[b] + AllWidgetRefs(ws, b) + ListRefs(blocks[i := to], b)
          + WidgetRefs(w, b) + Refers(loose, b)
      {
        ListRefsSwap(blocks, i, to, b);
        assert Block(b);
        assert now[b] == rest[b] + Refers(to, b) && live[b] == rest[b] + Refers(blocks[i], b);
      }
    }
  }

  /** A widget that owns nothing. */
  const NO_WIDGET := Widget([], 0, 0, List([], 0, None), List([], 0, None))

  /** The blocks of a finished widget pass to the list of widgets. */
  lemma OwnedPasses(live: multiset<nat>, base: multiset<nat>, leaked: multiset<nat>, ws: seq<Widget>,
    blocks: seq<Option<nat>>, w: Widget)
    requires Owned(live, base, leaked, ws, blocks, w, None)
    ensures Owned(live, base, leaked, ws + [w], blocks, NO_WIDGET, None)
  {
    forall b: nat
      ensures AllWidgetRefs(ws + [w], b) == AllWidgetRefs(ws, b) + WidgetRefs(w, b) && WidgetRefs(NO_WIDGET, b) == 0
    {
      AllWidgetRefsSnoc(ws, w, b);
    }
  }

  /** One of four pointers replaced. */
  lemma Replaced(a: Option<nat>, b: Option<nat>, c: Option<nat>, d: Option<nat>, x: Option<nat>)
    ensures [a, b, c, d][0 := x] == [x, b, c, d] && [a, b, c, d][1 := x] == [a, x, c, d]
    ensures [a, b, c, d][2 := x] == [a, b, x, d] && [a, b, c, d][3 := x] == [a, b, c, x]
  {}

  lemma NothingOwned(base: multiset<nat>)
    ensures Owned(base, base, multiset{}, [], [None, None, None, None], NO_WIDGET, None)
  {
    forall b: nat
      ensures ListRefs([None, None, None, None], b) == 0
    {
      NoRefs([None, None, None, None], b);
    }
  }

  lemma EmptyOwned(live: multiset<nat>, base: multiset<nat>, leaked: multiset<nat>, ws: seq<Widget>)
    requires Owned(live, base, leaked, ws, [None, None, None, None], NO_WIDGET, None)
    requires forall k | 0 <= k < |ws| :: ws[k] == NO_WIDGET
    ensures forall b: nat :: live[b] == base[b] + leaked[b]
    ensures Owned(live, base, leaked, [], [None, None, None, None], NO_WIDGET, None)
  {
    forall b: nat
      ensures live[b] == base[b] + leaked[b] && AllWidgetRefs(ws, b) == 0
    {
      NoWidgets(ws, b);
      NoRefs([None, None, None, None], b);
      assert Block(b);
    }
  }

  lemma {:induction false} NoRefs(blocks: seq<Option<nat>>, b: nat)
    requires forall i | 0 <= i < |blocks| :: blocks[i] != Some(b)
    ensures ListRefs(blocks, b) == 0
  {
    if blocks != [] {
      NoRefs(blocks[..|blocks| - 1], b);
    }
  }

  // ---- a widget's own blocks -------------------------------------------------------------------

  lemma TokensLent(live: multiset<nat>, base: multiset<nat>, leaked: multiset<nat>, ws: seq<Widget>,
    blocks: seq<Option<nat>>, w: Widget) returns (rest: multiset<nat>)
    requires Owned(live, base, leaked, ws, blocks, w, None)
    ensures Held(live, rest, w.tokens.block)
    ensures forall now, l: List<Token> | Held(now, rest, l.block) ::
      Owned(now, base, leaked, ws, blocks, w.(tokens := l), None)
  {
    assert w.tokens.block.Some? ==> Block(w.tokens.block.value);
    rest := Without(live, w.tokens.block);
    forall now, l: List<Token> | Held(now, rest, l.block)
      ensures Owned(now, base, leaked, ws, blocks, w.(tokens := l), None)
    {
      forall b: nat
        ensures now[b] == base[b] + leaked[b] + AllWidgetRefs(ws, b) + ListRefs(blocks, b)
          + WidgetRefs(w.(tokens := l), b)
      {
        assert Block(b) && now[b] == rest[b] + Refers(l.block, b) && live[b] == rest[b] + Refers(w.tokens.block, b);
      }
    }
  }

  lemma ControlsLent(live: multiset<nat>, base: multiset<nat>, leaked: multiset<nat>, ws: seq<Widget>,
    blocks: seq<Option<nat>>, w: Widget, c: Control) returns (rest: multiset<nat>)
    requires Owned(live, base, leaked, ws, blocks, w, c.payload)
    ensures Held(live, rest, w.controls.block)
    ensures forall now, l: List<Control> | Held(now, rest, l.block) && l.items == w.controls.items ::
      Owned(now, base, leaked, ws, blocks, w.(controls := l), c.payload)
    ensures forall now, l: List<Control> | Held(now, rest, l.block) && l.items == w.controls.items + [c] ::
      Owned(now, base, leaked, ws, blocks, w.(controls := l), None)
  {
    assert w.controls.block.Some? ==> Block(w.controls.block.value);
    rest := Without(live, w.controls.block);
    forall now, l: List<Control> | Held(now, rest, l.block) && l.items == w.controls.items
      ensures Owned(now, base, leaked, ws, blocks, w.(controls := l), c.payload)
    {
      forall b: nat
        ensures now[b] == base[b] + leaked[b] + AllWidgetRefs(ws, b) + ListRefs(blocks, b)
          + WidgetRefs(w.(controls := l), b) + Refers(c.payload, b)
      {
        assert Block(b) && now[b] == rest[b] + Refers(l.block, b) && live[b] == rest[b] + Refers(w.controls.block, b);
      }
    }
    forall now, l: List<Control> | Held(now, rest, l.block) && l.items == w.controls.items + [c]
      ensures Owned(now, base, leaked, ws, blocks, w.(controls := l), None)
    {
      forall b: nat
        ensures now[b] == base[b] + leaked[b] + AllWidgetRefs(ws, b) + ListRefs(blocks, b)
          + WidgetRefs(w.(controls := l), b)
      {
        PayloadRefsSnoc(w.controls.items, c, b);
        assert Block(b) && now[b] == rest[b] + Refers(l.block, b) && live[b] == rest[b] + Refers(w.controls.block, b);
      }
    }
  }

  /** A block just allocated is loose; a loose block can be freed. */
  lemma LooseComes(before: multiset<nat>, now: multiset<nat>, base: multiset<nat>, leaked: multiset<nat>,
    ws: seq<Widget>, blocks: seq<Option<nat>>, w: Widget, p: Option<nat>)
    requires Owned(before, base, leaked, ws, blocks, w, None) && Moved(before, now, None, p)
    ensures Owned(now, base, leaked, ws, blocks, w, p)
  {}

  lemma LooseGoes(before: multiset<nat>, now: multiset<nat>, base: multiset<nat>, leaked: multiset<nat>,
    ws: seq<Widget>, blocks: seq<Option<nat>>, w: Widget, p: Option<nat>)
    requires Owned(before, base, leaked, ws, blocks, w, p) && Moved(before, now, p, None)
    ensures Owned(now, base, leaked, ws, blocks, w, None)
  {}

  /** A block that a widget holds is let go by it. */
  lemma LetGo(live: multiset<nat>, base: multiset<nat>, leaked: multiset<nat>, ws: seq<Widget>,
    blocks: seq<Option<nat>>, w: Widget, v: Widget, p: Option<nat>)
    requires Owned(live, base, leaked, ws, blocks, w, None)
    requires forall b: nat :: WidgetRefs(w, b) == WidgetRefs(v, b) + Refers(p, b)
    ensures Owned(live, base, leaked, ws, blocks, v, p) && IsLive(live, p)
  {
    if p.Some? {
      assert Block(p.value) && WidgetRefs(w, p.value) > 0;
    }
  }

  lemma {:induction false} PayloadLetGo(controls: seq<Control>, i: nat, b: nat)
    requires i < |controls|
    ensures PayloadRefs(controls, b)
      == PayloadRefs(controls[i := controls[i].(payload := None)], b) + Refers(controls[i].payload, b)
  {
    var front := controls[..|controls| - 1];
    var now := controls[i := controls[i].(payload := None)];
    if i < |front| {
      PayloadLetGo(front, i, b);
      assert now[..|front|] == front[i := front[i].(payload := None)];
    } else {
      assert now[..|front|] == front;
    }
  }

  lemma {:induction false} NoPayloads(controls: seq<Control>, b: nat)
    requires forall i | 0 <= i < |controls| :: controls[i].payload.None?
    ensures PayloadRefs(controls, b) == 0
  {
    if controls != [] {
      NoPayloads(controls[..|controls| - 1], b);
    }
  }

  /** A stored widget is taken back out, to be released. */
  lemma {:induction false} WidgetTaken(ws: seq<Widget>, i: nat, v: Widget, b: nat)
    requires i < |ws|
    ensures AllWidgetRefs(ws[i := v], b) + WidgetRefs(ws[i], b) == AllWidgetRefs(ws, b) + WidgetRefs(v, b)
  {
    var front := ws[..|ws| - 1];
    if i < |front| {
      WidgetTaken(front, i, v, b);
      assert ws[i := v][..|front|] == front[i := v];
    } else {
      assert ws[i := v][..|front|] == front;
    }
  }

  lemma OwnedTaken(live: multiset<nat>, base: multiset<nat>, leaked: multiset<nat>, ws: seq<Widget>,
    blocks: seq<Option<nat>>, i: nat)
    requires Owned(live, base, leaked, ws, blocks, NO_WIDGET, None) && i < |ws|
    ensures Owned(live, base, leaked, ws[i := NO_WIDGET], blocks, ws[i], None)
  {
    forall b: nat
      ensures AllWidgetRefs(ws[i := NO_WIDGET], b) + WidgetRefs(ws[i], b)
        == AllWidgetRefs(ws, b) + WidgetRefs(NO_WIDGET, b)
    {
      WidgetTaken(ws, i, NO_WIDGET, b);
    }
  }

  lemma {:induction false} NoWidgets(ws: seq<Widget>, b: nat)
    requires forall i | 0 <= i < |ws| :: ws[i] == NO_WIDGET
    ensures AllWidgetRefs(ws, b) == 0
  {
    if ws != [] {
      NoWidgets(ws[..|ws| - 1], b);
    }
  }

  /** What a widget holds is lost with it, if it is neither stored nor released. */
  lemma OwnedLost(live: multiset<nat>, base: multiset<nat>, leaked: multiset<nat>, ws: seq<Widget>,
    blocks: seq<Option<nat>>, w: Widget) returns (lost: multiset<nat>)
    requires Owned(live, base, leaked, ws, blocks, w, None) && w.controls.items == [] && w.controls.block.None?
    ensures Owned(live, base, lost, ws, blocks, NO_WIDGET, None)
    ensures forall b: nat :: lost[b] == leaked[b] + Refers(w.tokens.block, b)
  {
    lost := if w.tokens.block.None? then leaked
      else leaked[w.tokens.block.value := leaked[w.tokens.block.value] + 1];
  }

  lemma KeysSnoc(ws: seq<Widget>, w: Widget)
    ensures WidgetKeys(ws + [w]) == WidgetKeys(ws) + [w.pipelineId]
  {}

  // ---- pipelines as they come ------------------------------------------------------------------

  function NewPipeline(id: u32, index: nat): Pipeline {
    Pipeline(id, index, 0, 0, false)
  }

  lemma PipelineAdded(ps: seq<Pipeline>, keys: seq<u32>, id: u32)
    requires PipelinesCount(ps, keys, []) && FindPipeline(ps, id, 0) == |ps|
    ensures PipelinesCount(ps + [NewPipeline(id, |ps|)], keys, [])
  {
    var ids, now := PipelineIds(ps), ps + [NewPipeline(id, |ps|)];
    assert forall i | 0 <= i < |ids| :: ids[i] != id;
    OccursNone(keys, id);
    forall k | 0 <= k < |keys|
      ensures keys[k] in PipelineIds(now)
    {
      var j :| 0 <= j < |ids| && ids[j] == keys[k];
      assert PipelineIds(now)[j] == keys[k];
    }
  }

  /** One more widget for a pipeline, and one more key that is its id. */
  lemma WidgetCounted(ps: seq<Pipeline>, keys: seq<u32>, i: nat, p: Pipeline)
    requires PipelinesCount(ps, keys, []) && i < |ps|
    requires p.id == ps[i].id && p.index == i && p.widgetCount == ps[i].widgetCount + 1
    requires p.routeCount == ps[i].routeCount
    ensures PipelinesCount(ps[i := p], keys + [ps[i].id], [])
  {
    var now, more := ps[i := p], keys + [ps[i].id];
    assert more[..|keys|] == keys;
    forall k | 0 <= k < |more|
      ensures more[k] in PipelineIds(now)
    {
      if k == |keys| {
        assert PipelineIds(now)[i] == more[k];
      } else {
        var j :| 0 <= j < |ps| && PipelineIds(ps)[j] == keys[k];
        assert PipelineIds(now)[j] == keys[k];
      }
    }
  }

  /** One more resolved route for the pipeline of its sink. */
  lemma RouteCounted(ps: seq<Pipeline>, keys: seq<u32>, routeKeys: seq<u32>, i: nat, p: Pipeline)
    requires PipelinesTally(ps, keys, routeKeys) && i < |ps|
    requires p == ps[i].(routeCount := ps[i].routeCount + 1)
    ensures PipelinesTally(ps[i := p], keys, routeKeys + [ps[i].id])
    ensures PipelineIds(ps[i := p]) == PipelineIds(ps)
  {
    var more := routeKeys + [ps[i].id];
    assert more[..|routeKeys|] == routeKeys;
  }
}
